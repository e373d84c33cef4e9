/** The record-processing pipeline of `scripts/cert-quota-check.py`: from the
    certificate-transparency records that crt.sh returns for a domain, keep
    the recent Let's Encrypt certificates, drop repeated serial numbers, and
    work out the two rate-limit figures the report prints — certificates per
    registered domain (50 a week) and certificates per exact identifier set
    (5 a week). The three loops of the script are methods proved against
    reference functions; what the script promises is proved about those. */
module CertQuotaCheck {
  import opened PyStr

  datatype Option<T> = None | Some(value: T)

  /** One record of the crt.sh JSON array. A key absent from the JSON object
      is `None`. */
  datatype Cert = Cert(
    issuerName: Option<string>,
    notBefore: Option<string>,
    serialNumber: Option<string>,
    nameValue: Option<string>)

  /** `cert.get(key, "")`: a missing field reads as the empty string. */
  function GetOrEmpty(field: Option<string>): (r: string)
    ensures field.Some? ==> r == field.value
    ensures r == "" <==> field.None? || field == Some("")
  {
    match field
    case Some(v) => v
    case None => ""
  }

  function IssuerOf(c: Cert): string { GetOrEmpty(c.issuerName) }
  function NotBeforeOf(c: Cert): string { GetOrEmpty(c.notBefore) }
  function SerialOf(c: Cert): string { GetOrEmpty(c.serialNumber) }
  function NameValueOf(c: Cert): string { GetOrEmpty(c.nameValue) }

  /** The issuer substring the filter looks for. */
  const LetsEncrypt: string := "Let's Encrypt"

  /** New certificates per registered domain per week, and the count above
      which the report warns. */
  const CertLimit: int := 50
  const CertWarnAbove: int := 40

  /** Count of certificates per exact identifier set above which the report
      warns (the weekly limit it prints is 5). */
  const SetWarnAbove: int := 3

  // ===========================================================================
  // Subsequences
  // ===========================================================================

  /** `idx` lists, in increasing order, the positions of `ys` that hold the
      elements of `xs`. */
  ghost predicate Embeds<T>(xs: seq<T>, ys: seq<T>, idx: seq<nat>)
  {
    |idx| == |xs| &&
    (forall k :: 0 <= k < |idx| ==> idx[k] < |ys| && xs[k] == ys[idx[k]]) &&
    (forall k, l :: 0 <= k < l < |idx| ==> idx[k] < idx[l])
  }

  /** `xs` is `ys` with some elements left out and the rest in their order. */
  ghost predicate IsSubsequence<T>(xs: seq<T>, ys: seq<T>)
  {
    exists idx :: Embeds(xs, ys, idx)
  }

  lemma SubsequenceExtend<T>(xs: seq<T>, ys: seq<T>, y: T)
    requires IsSubsequence(xs, ys)
    ensures IsSubsequence(xs, ys + [y])
  {
    var idx: seq<nat> :| Embeds(xs, ys, idx);
    assert Embeds(xs, ys + [y], idx);
  }

  lemma SubsequenceAppendBoth<T>(xs: seq<T>, ys: seq<T>, y: T)
    requires IsSubsequence(xs, ys)
    ensures IsSubsequence(xs + [y], ys + [y])
  {
    var idx: seq<nat> :| Embeds(xs, ys, idx);
    var extended: seq<nat> := idx + [|ys|];
    assert Embeds(xs + [y], ys + [y], extended);
  }

  /** Positions strictly increase, so the k-th one is at least k. */
  lemma {:induction false} EmbedsIndexLowerBound<T>(xs: seq<T>, ys: seq<T>, idx: seq<nat>, k: nat)
    requires Embeds(xs, ys, idx) && k < |idx|
    ensures k <= idx[k]
  {
    if k > 0 { EmbedsIndexLowerBound(xs, ys, idx, k - 1); }
  }

  lemma SubsequenceNoLonger<T>(xs: seq<T>, ys: seq<T>)
    requires IsSubsequence(xs, ys)
    ensures |xs| <= |ys|
  {
    var idx: seq<nat> :| Embeds(xs, ys, idx);
    if |xs| > 0 { EmbedsIndexLowerBound(xs, ys, idx, |xs| - 1); }
  }

  // ===========================================================================
  // Step 1: Let's Encrypt certificates issued since the boundary (lines 54-58)
  // ===========================================================================

  /** The filter's test: the issuer contains "Let's Encrypt" and `not_before`
      is at or after `weekAgo` in Python's string order. */
  predicate IsRecentLetsEncrypt(c: Cert, weekAgo: string): (r: bool)
    ensures r ==> |LetsEncrypt| <= |IssuerOf(c)|
    ensures r && weekAgo != "" ==> NotBeforeOf(c) != ""
  {
    Contains(IssuerOf(c), LetsEncrypt) && LexLe(weekAgo, NotBeforeOf(c))
  }

  /** The records that pass the filter, in input order. */
  function Filtered(certs: seq<Cert>, weekAgo: string): seq<Cert>
  {
    if certs == [] then []
    else
      var last := certs[|certs| - 1];
      Filtered(certs[..|certs| - 1], weekAgo) + (if IsRecentLetsEncrypt(last, weekAgo) then [last] else [])
  }

  /** The filter loop: appends each record that passes, in order. */
  method FilterLetsEncrypt(allCerts: seq<Cert>, weekAgo: string) returns (letsencrypt: seq<Cert>)
    ensures letsencrypt == Filtered(allCerts, weekAgo)
  {
    letsencrypt := [];
    for i := 0 to |allCerts|
      invariant letsencrypt == Filtered(allCerts[..i], weekAgo)
    {
      var cert := allCerts[i];
      assert allCerts[..i + 1][..i] == allCerts[..i];
      if Contains(IssuerOf(cert), LetsEncrypt) {
        if LexLe(weekAgo, NotBeforeOf(cert)) {
          letsencrypt := letsencrypt + [cert];
        }
      }
    }
    assert allCerts[..|allCerts|] == allCerts;
  }

  /** A record is kept exactly when it is in the input and passes the test. */
  lemma {:induction false} FilteredMembers(certs: seq<Cert>, weekAgo: string)
    ensures forall c :: c in Filtered(certs, weekAgo) <==> c in certs && IsRecentLetsEncrypt(c, weekAgo)
  {
    if certs != [] {
      var init := certs[..|certs| - 1];
      FilteredMembers(init, weekAgo);
      assert certs == init + [certs[|certs| - 1]];
    }
  }

  /** The kept records appear in the same order as in the input. */
  lemma {:induction false} FilteredIsSubsequence(certs: seq<Cert>, weekAgo: string)
    ensures IsSubsequence(Filtered(certs, weekAgo), certs)
  {
    if certs == [] {
      assert Embeds([], certs, []);
    } else {
      var init, last := certs[..|certs| - 1], certs[|certs| - 1];
      FilteredIsSubsequence(init, weekAgo);
      assert certs == init + [last];
      if IsRecentLetsEncrypt(last, weekAgo) {
        SubsequenceAppendBoth(Filtered(init, weekAgo), init, last);
      } else {
        assert Filtered(certs, weekAgo) == Filtered(init, weekAgo);
        SubsequenceExtend(Filtered(init, weekAgo), init, last);
      }
    }
  }

  /** A record without `issuer_name` is never kept; one without `not_before`
      is never kept against a non-empty boundary. */
  lemma MissingFieldsExcluded(c: Cert, weekAgo: string)
    requires c.issuerName.None? || (c.notBefore.None? && weekAgo != "")
    ensures !IsRecentLetsEncrypt(c, weekAgo)
  {
  }

  /** Moving the boundary later keeps a subsequence of what the earlier
      boundary kept, so never more records. */
  lemma {:induction false} FilterMonotone(certs: seq<Cert>, earlier: string, later: string)
    requires LexLe(earlier, later)
    ensures IsSubsequence(Filtered(certs, later), Filtered(certs, earlier))
    ensures |Filtered(certs, later)| <= |Filtered(certs, earlier)|
  {
    if certs == [] {
      assert Embeds(Filtered(certs, later), Filtered(certs, earlier), []);
    } else {
      var init, last := certs[..|certs| - 1], certs[|certs| - 1];
      FilterMonotone(init, earlier, later);
      var a, b := Filtered(init, later), Filtered(init, earlier);
      if IsRecentLetsEncrypt(last, later) {
        LexLeTransitive(earlier, later, NotBeforeOf(last));
        SubsequenceAppendBoth(a, b, last);
      } else if IsRecentLetsEncrypt(last, earlier) {
        assert Filtered(certs, later) == a;
        SubsequenceExtend(a, b, last);
      } else {
        assert Filtered(certs, later) == a && Filtered(certs, earlier) == b;
      }
    }
    SubsequenceNoLonger(Filtered(certs, later), Filtered(certs, earlier));
  }

  // ===========================================================================
  // Step 2: deduplication by serial number (lines 61-67)
  // ===========================================================================

  /** `certs[i]` has a non-empty serial that no earlier record carries. */
  predicate FirstOfSerial(certs: seq<Cert>, i: int)
    requires 0 <= i < |certs|
  {
    SerialOf(certs[i]) != "" && forall j :: 0 <= j < i ==> SerialOf(certs[j]) != SerialOf(certs[i])
  }

  /** The first record of each non-empty serial, in input order. */
  function Deduplicated(certs: seq<Cert>): seq<Cert>
  {
    if certs == [] then []
    else
      var last := certs[|certs| - 1];
      Deduplicated(certs[..|certs| - 1]) + (if FirstOfSerial(certs, |certs| - 1) then [last] else [])
  }

  /** The non-empty serials carried by some record. */
  function SerialSet(certs: seq<Cert>): set<string>
  {
    set c | c in certs && SerialOf(c) != "" :: SerialOf(c)
  }

  /** Every serial is non-empty and no two records share one. */
  ghost predicate UniqueSerials(certs: seq<Cert>)
  {
    (forall i :: 0 <= i < |certs| ==> SerialOf(certs[i]) != "") &&
    (forall i, j :: 0 <= i < j < |certs| ==> SerialOf(certs[i]) != SerialOf(certs[j]))
  }

  lemma SerialSetAppend(certs: seq<Cert>, c: Cert)
    ensures SerialSet(certs + [c]) == SerialSet(certs) + (if SerialOf(c) != "" then {SerialOf(c)} else {})
  {
  }

  /** The last record is a first occurrence exactly when its serial is
      non-empty and not among the serials before it: the set test of the loop. */
  lemma LastIsFirstOfSerial(certs: seq<Cert>)
    requires certs != []
    ensures var init, last := certs[..|certs| - 1], certs[|certs| - 1];
      FirstOfSerial(certs, |certs| - 1) <==> SerialOf(last) != "" && SerialOf(last) !in SerialSet(init)
  {
  }

  /** How one more record changes the deduplicated list and the serials seen. */
  lemma DedupStep(certs: seq<Cert>, i: nat)
    requires i < |certs|
    ensures var seen, serial := SerialSet(certs[..i]), SerialOf(certs[i]);
      Deduplicated(certs[..i + 1])
        == Deduplicated(certs[..i]) + (if serial != "" && serial !in seen then [certs[i]] else []) &&
      SerialSet(certs[..i + 1]) == seen + (if serial != "" then {serial} else {})
  {
    var prefix := certs[..i + 1];
    assert prefix[..i] == certs[..i];
    assert prefix == certs[..i] + [certs[i]];
    LastIsFirstOfSerial(prefix);
    SerialSetAppend(certs[..i], certs[i]);
  }

  /** The dedup loop: a set of serials seen so far, and the records kept. */
  method DedupBySerial(letsencrypt: seq<Cert>) returns (recent: seq<Cert>)
    ensures recent == Deduplicated(letsencrypt)
  {
    var seen: set<string> := {};
    recent := [];
    for i := 0 to |letsencrypt|
      invariant recent == Deduplicated(letsencrypt[..i])
      invariant seen == SerialSet(letsencrypt[..i])
    {
      var cert := letsencrypt[i];
      var serial := SerialOf(cert);
      DedupStep(letsencrypt, i);
      if serial != "" && serial !in seen {
        seen := seen + {serial};
        recent := recent + [cert];
      }
    }
    assert letsencrypt[..|letsencrypt|] == letsencrypt;
  }

  /** No non-empty serial is lost, every kept serial is non-empty, and no two
      kept records share a serial. */
  lemma {:induction false} DedupSerialsUnique(certs: seq<Cert>)
    ensures SerialSet(Deduplicated(certs)) == SerialSet(certs)
    ensures UniqueSerials(Deduplicated(certs))
  {
    if certs != [] {
      var init, last := certs[..|certs| - 1], certs[|certs| - 1];
      DedupSerialsUnique(init);
      LastIsFirstOfSerial(certs);
      assert certs == init + [last];
      var d := Deduplicated(init);
      SerialSetAppend(init, last);
      if FirstOfSerial(certs, |certs| - 1) {
        forall i | 0 <= i < |d| ensures SerialOf(d[i]) != SerialOf(last) {
          assert d[i] in d;
        }
        SerialSetAppend(d, last);
      } else {
        assert Deduplicated(certs) == d;
      }
    }
  }

  /** The kept records appear in the same order as in the input. */
  lemma {:induction false} DedupIsSubsequence(certs: seq<Cert>)
    ensures IsSubsequence(Deduplicated(certs), certs)
  {
    if certs == [] {
      assert Embeds([], certs, []);
    } else {
      var init, last := certs[..|certs| - 1], certs[|certs| - 1];
      DedupIsSubsequence(init);
      assert certs == init + [last];
      if FirstOfSerial(certs, |certs| - 1) {
        SubsequenceAppendBoth(Deduplicated(init), init, last);
      } else {
        assert Deduplicated(certs) == Deduplicated(init);
        SubsequenceExtend(Deduplicated(init), init, last);
      }
    }
  }

  /** The first record carrying a non-empty serial is kept, and every kept
      record is such a first record. */
  lemma {:induction false} DedupKeepsFirstOccurrences(certs: seq<Cert>)
    ensures forall i :: 0 <= i < |certs| && FirstOfSerial(certs, i) ==> certs[i] in Deduplicated(certs)
    ensures forall c :: c in Deduplicated(certs) ==> exists i :: 0 <= i < |certs| && FirstOfSerial(certs, i) && certs[i] == c
  {
    if certs != [] {
      var init, last := certs[..|certs| - 1], certs[|certs| - 1];
      DedupKeepsFirstOccurrences(init);
      FirstOfSerialInPrefix(certs);
      var d := Deduplicated(init);
      assert Deduplicated(certs) == d + (if FirstOfSerial(certs, |certs| - 1) then [last] else []);
      forall c | c in Deduplicated(certs)
        ensures exists i :: 0 <= i < |certs| && FirstOfSerial(certs, i) && certs[i] == c
      {
        if c in d {
          var i :| 0 <= i < |init| && FirstOfSerial(init, i) && init[i] == c;
          assert certs[i] == c;
        } else {
          assert FirstOfSerial(certs, |certs| - 1) && c == last;
        }
      }
    }
  }

  /** Whether a record is the first with its serial does not depend on the
      records after it. */
  lemma FirstOfSerialInPrefix(certs: seq<Cert>)
    requires certs != []
    ensures forall i :: 0 <= i < |certs| - 1 ==>
      FirstOfSerial(certs[..|certs| - 1], i) == FirstOfSerial(certs, i)
  {
  }

  /** A list whose serials are non-empty and distinct is its own dedup. */
  lemma {:induction false} DedupOfUnique(certs: seq<Cert>)
    requires UniqueSerials(certs)
    ensures Deduplicated(certs) == certs
  {
    if certs != [] {
      var init, last := certs[..|certs| - 1], certs[|certs| - 1];
      assert UniqueSerials(init) by {
        assert forall i :: 0 <= i < |init| ==> init[i] == certs[i];
      }
      DedupOfUnique(init);
      assert FirstOfSerial(certs, |certs| - 1);
      assert certs == init + [last];
    }
  }

  /** Deduplicating twice gives the same list as deduplicating once. */
  lemma DedupIdempotent(certs: seq<Cert>)
    ensures Deduplicated(Deduplicated(certs)) == Deduplicated(certs)
  {
    DedupSerialsUnique(certs);
    DedupOfUnique(Deduplicated(certs));
  }

  // ===========================================================================
  // Step 3: quota A, certificates per registered domain (lines 72-76)
  // ===========================================================================

  /** The figures the report prints for quota A. */
  datatype VolumeQuota = VolumeQuota(certCount: nat, remaining: int, warning: bool)

  /** `cert_count`, `50 - cert_count` (not clamped) and the warning flag. */
  function QuotaA(recent: seq<Cert>): (q: VolumeQuota)
    ensures q.certCount == |recent|
    ensures q.certCount + q.remaining == CertLimit
    ensures q.remaining < 0 <==> |recent| > CertLimit
    ensures q.warning <==> |recent| > CertWarnAbove
  {
    VolumeQuota(|recent|, CertLimit - |recent|, |recent| > CertWarnAbove)
  }

  // ===========================================================================
  // Step 4: identifier sets (lines 83-99)
  // ===========================================================================

  /** `",".join(sorted(name_value.split("\n")))` */
  function IdentifierSetKey(nameValue: string): (key: string)
    ensures '\n' !in nameValue ==> key == nameValue
  {
    Join(Sort(Split(nameValue, '\n')), ",")
  }

  /** Listing the same names in any order gives the same key. */
  lemma IdentifierSetKeyPermutationInvariant(names: seq<string>, reordered: seq<string>)
    requires |names| >= 1
    requires forall n :: n in names ==> '\n' !in n
    requires multiset(names) == multiset(reordered)
    ensures IdentifierSetKey(Join(names, "\n")) == IdentifierSetKey(Join(reordered, "\n"))
  {
    assert |reordered| == |multiset(reordered)| == |names|;
    forall n | n in reordered ensures '\n' !in n {
      assert n in multiset(names);
    }
    SplitJoin(names, '\n');
    SplitJoin(reordered, '\n');
    SortPermutationInvariant(names, reordered);
  }

  /** Two names listed either way round give the same key. */
  lemma IdentifierSetKeySwap(first: string, second: string)
    requires '\n' !in first && '\n' !in second
    ensures IdentifierSetKey(second + "\n" + first) == IdentifierSetKey(first + "\n" + second)
  {
    assert Join([second, first], "\n") == second + "\n" + first;
    assert Join([first, second], "\n") == first + "\n" + second;
    assert multiset([second, first]) == multiset([first, second]);
    IdentifierSetKeyPermutationInvariant([second, first], [first, second]);
  }

  /** `"b.example.com\na.example.com"` and `"a.example.com\nb.example.com"`
      have the same key. */
  lemma IdentifierSetKeyExample()
    ensures IdentifierSetKey("b.example.com\na.example.com") == IdentifierSetKey("a.example.com\nb.example.com")
  {
    var a, b := "a.example.com", "b.example.com";
    assert b + "\n" + a == "b.example.com\na.example.com";
    assert a + "\n" + b == "a.example.com\nb.example.com";
    IdentifierSetKeySwap(a, b);
  }

  predicate HasNames(c: Cert) { NameValueOf(c) != "" }

  /** The records whose `name_value` is non-empty, in order. */
  function Named(recent: seq<Cert>): seq<Cert>
  {
    if recent == [] then []
    else
      var last := recent[|recent| - 1];
      Named(recent[..|recent| - 1]) + (if HasNames(last) then [last] else [])
  }

  /** The keys the collecting loop appends, in order. */
  function IdentifierSets(recent: seq<Cert>): seq<string>
  {
    if recent == [] then []
    else
      var last := recent[|recent| - 1];
      IdentifierSets(recent[..|recent| - 1]) + (if HasNames(last) then [IdentifierSetKey(NameValueOf(last))] else [])
  }

  /** The collecting loop over the deduplicated records. */
  method CollectIdentifierSets(recent: seq<Cert>) returns (identifierSets: seq<string>)
    ensures identifierSets == IdentifierSets(recent)
  {
    identifierSets := [];
    for i := 0 to |recent|
      invariant identifierSets == IdentifierSets(recent[..i])
    {
      var cert := recent[i];
      assert recent[..i + 1][..i] == recent[..i];
      var nameValue := NameValueOf(cert);
      if nameValue != "" {
        var domains := Sort(Split(nameValue, '\n'));
        var identifierSet := Join(domains, ",");
        identifierSets := identifierSets + [identifierSet];
      }
    }
    assert recent[..|recent|] == recent;
  }

  /** One key per record with a non-empty `name_value`, in order, and none for
      the others. */
  lemma {:induction false} IdentifierSetsOfNamed(recent: seq<Cert>)
    ensures |IdentifierSets(recent)| == |Named(recent)|
    ensures forall k :: 0 <= k < |Named(recent)| ==>
      HasNames(Named(recent)[k]) && IdentifierSets(recent)[k] == IdentifierSetKey(NameValueOf(Named(recent)[k]))
  {
    if recent != [] {
      IdentifierSetsOfNamed(recent[..|recent| - 1]);
    }
  }

  /** Every record with a non-empty `name_value` is among the named records,
      and they keep their order. */
  lemma {:induction false} NamedIsSubsequence(recent: seq<Cert>)
    ensures IsSubsequence(Named(recent), recent)
    ensures forall c :: c in recent && HasNames(c) ==> c in Named(recent)
  {
    if recent == [] {
      assert Embeds([], recent, []);
    } else {
      var init, last := recent[..|recent| - 1], recent[|recent| - 1];
      NamedIsSubsequence(init);
      assert recent == init + [last];
      if HasNames(last) {
        SubsequenceAppendBoth(Named(init), init, last);
      } else {
        assert Named(recent) == Named(init);
        SubsequenceExtend(Named(init), init, last);
      }
    }
  }

  // ---------------------------------------------------------------------------
  // Counting the keys (`Counter`, lines 93-99)
  // ---------------------------------------------------------------------------

  /** One line of the quota-B breakdown: a key, how many certificates carry
      it, and whether the report flags it. */
  datatype SetUsage = SetUsage(identifierSet: string, count: nat, warning: bool)

  function Usage(key: string, count: nat): SetUsage
  {
    SetUsage(key, count, count > SetWarnAbove)
  }

  /** The distinct keys in order of first occurrence, as a `Counter` (an
      insertion-ordered dict) lists them. */
  function Distinct(keys: seq<string>): seq<string>
  {
    if keys == [] then []
    else
      var init, last := keys[..|keys| - 1], keys[|keys| - 1];
      Distinct(init) + (if last in init then [] else [last])
  }

  /** One usage line per key of `keys`, each with its count in `counts`. */
  function UsagesOf(keys: seq<string>, counts: multiset<string>): seq<SetUsage>
  {
    if keys == [] then []
    else
      var last := keys[|keys| - 1];
      UsagesOf(keys[..|keys| - 1], counts) + [Usage(last, counts[last])]
  }

  /** `Counter(identifier_sets).items()` with the warning test of line 96. */
  function SetUsages(identifierSets: seq<string>): seq<SetUsage>
  {
    UsagesOf(Distinct(identifierSets), multiset(identifierSets))
  }

  function TotalCount(usages: seq<SetUsage>): nat
  {
    if usages == [] then 0 else TotalCount(usages[..|usages| - 1]) + usages[|usages| - 1].count
  }

  /** `Counter(identifier_sets)`: the keys in order of first occurrence and
      the number of times each occurs. */
  method CountOccurrences(identifierSets: seq<string>) returns (order: seq<string>, counts: map<string, nat>)
    ensures order == Distinct(identifierSets)
    ensures forall k :: k in counts <==> k in identifierSets
    ensures forall k :: k in counts ==> counts[k] == multiset(identifierSets)[k]
  {
    order, counts := [], map[];
    for i := 0 to |identifierSets|
      invariant order == Distinct(identifierSets[..i])
      invariant forall k :: k in counts <==> k in identifierSets[..i]
      invariant forall k :: k in counts ==> counts[k] == multiset(identifierSets[..i])[k]
    {
      var key := identifierSets[i];
      CountStep(identifierSets, i);
      if key in counts {
        counts := counts[key := counts[key] + 1];
      } else {
        order := order + [key];
        counts := counts[key := 1];
      }
    }
    assert identifierSets[..|identifierSets|] == identifierSets;
  }

  /** The loop over `set_counts.items()` that decides the warnings. */
  method CountSets(identifierSets: seq<string>) returns (usages: seq<SetUsage>)
    ensures usages == SetUsages(identifierSets)
  {
    var order, counts := CountOccurrences(identifierSets);
    DistinctMembers(identifierSets);
    usages := [];
    for j := 0 to |order|
      invariant usages == UsagesOf(order[..j], multiset(identifierSets))
    {
      var key := order[j];
      var count := counts[key];
      assert order[..j + 1] == order[..j] + [key];
      if count > SetWarnAbove {
        usages := usages + [SetUsage(key, count, true)];
      } else {
        usages := usages + [SetUsage(key, count, false)];
      }
    }
    assert order[..|order|] == order;
  }

  /** How one more key changes the distinct keys and the occurrence counts. */
  lemma CountStep(keys: seq<string>, i: nat)
    requires i < |keys|
    ensures var seen, key := keys[..i], keys[i];
      Distinct(keys[..i + 1]) == Distinct(seen) + (if key in seen then [] else [key]) &&
      multiset(keys[..i + 1]) == multiset(seen) + multiset{key} &&
      (forall k :: k in keys[..i + 1] <==> k in seen || k == key)
  {
    assert keys[..i + 1] == keys[..i] + [keys[i]];
    assert keys[..i + 1][..i] == keys[..i];
  }

  /** `Distinct` lists exactly the keys that occur, each once. */
  lemma {:induction false} DistinctMembers(keys: seq<string>)
    ensures forall k :: k in Distinct(keys) <==> k in keys
    ensures forall i, j :: 0 <= i < j < |Distinct(keys)| ==> Distinct(keys)[i] != Distinct(keys)[j]
  {
    if keys != [] {
      var init, last := keys[..|keys| - 1], keys[|keys| - 1];
      DistinctMembers(init);
      assert keys == init + [last];
    }
  }

  lemma {:induction false} UsagesOfAt(keys: seq<string>, counts: multiset<string>)
    ensures |UsagesOf(keys, counts)| == |keys|
    ensures forall i :: 0 <= i < |keys| ==> UsagesOf(keys, counts)[i] == Usage(keys[i], counts[keys[i]])
  {
    if keys != [] {
      UsagesOfAt(keys[..|keys| - 1], counts);
    }
  }

  /** Adding one occurrence of `key` raises the total by one when `key` is
      listed (once) and leaves it alone otherwise. */
  lemma {:induction false} TotalCountAdd(keys: seq<string>, counts: multiset<string>, key: string)
    requires forall i, j :: 0 <= i < j < |keys| ==> keys[i] != keys[j]
    ensures TotalCount(UsagesOf(keys, counts + multiset{key}))
         == TotalCount(UsagesOf(keys, counts)) + (if key in keys then 1 else 0)
  {
    if keys != [] {
      var init, last := keys[..|keys| - 1], keys[|keys| - 1];
      TotalCountAdd(init, counts, key);
      assert keys == init + [last];
      UsagesOfAppend(init, counts, last);
      UsagesOfAppend(init, counts + multiset{key}, last);
      if last == key {
        assert key !in init by {
          forall i | 0 <= i < |init| ensures init[i] != key { assert keys[i] != keys[|keys| - 1]; }
        }
      }
    }
  }

  /** Each listed key is distinct, occurs among the input keys, carries its
      number of occurrences (at least one) and is flagged exactly when that is
      above 3; every input key is listed; the counts add up to the number of
      keys. */
  lemma {:induction false} SetUsagesCorrect(identifierSets: seq<string>)
    ensures var u := SetUsages(identifierSets);
      (forall i :: 0 <= i < |u| ==>
         u[i].identifierSet in identifierSets &&
         u[i].count == multiset(identifierSets)[u[i].identifierSet] &&
         u[i].count >= 1 &&
         (u[i].warning <==> u[i].count > SetWarnAbove)) &&
      (forall i, j :: 0 <= i < j < |u| ==> u[i].identifierSet != u[j].identifierSet) &&
      (forall k :: k in identifierSets ==> exists i :: 0 <= i < |u| && u[i].identifierSet == k)
  {
    var d, m := Distinct(identifierSets), multiset(identifierSets);
    var u := SetUsages(identifierSets);
    DistinctMembers(identifierSets);
    UsagesOfAt(d, m);
    assert |u| == |d|;
    forall i | 0 <= i < |u|
      ensures u[i].identifierSet in identifierSets
      ensures u[i].count == m[u[i].identifierSet] && u[i].count >= 1
      ensures u[i].warning <==> u[i].count > SetWarnAbove
    {
      assert u[i] == Usage(d[i], m[d[i]]);
      assert d[i] in d;
      assert d[i] in identifierSets;
    }
    forall i, j | 0 <= i < j < |u|
      ensures u[i].identifierSet != u[j].identifierSet
    {
      assert u[i].identifierSet == d[i] && u[j].identifierSet == d[j];
    }
    forall k | k in identifierSets
      ensures exists i :: 0 <= i < |u| && u[i].identifierSet == k
    {
      assert k in d;
      var i :| 0 <= i < |d| && d[i] == k;
      assert u[i].identifierSet == k;
    }
  }

  /** One more listed key adds its count to the total. */
  lemma UsagesOfAppend(keys: seq<string>, counts: multiset<string>, key: string)
    ensures TotalCount(UsagesOf(keys + [key], counts)) == TotalCount(UsagesOf(keys, counts)) + counts[key]
  {
  }

  /** The per-set counts add up to the number of keys collected. */
  lemma {:induction false} SetUsagesTotal(identifierSets: seq<string>)
    ensures TotalCount(SetUsages(identifierSets)) == |identifierSets|
  {
    if identifierSets != [] {
      var init, last := identifierSets[..|identifierSets| - 1], identifierSets[|identifierSets| - 1];
      assert identifierSets == init + [last];
      SetUsagesTotal(init);
      SetUsagesTotalAppend(init, last);
    }
  }

  /** One more key adds one to the total, whether it is new or not. */
  lemma SetUsagesTotalAppend(init: seq<string>, last: string)
    ensures TotalCount(SetUsages(init + [last])) == TotalCount(SetUsages(init)) + 1
  {
    var d, m, m' := Distinct(init), multiset(init), multiset(init + [last]);
    assert m' == m + multiset{last};
    DistinctMembers(init);
    DistinctAppend(init, last);
    TotalCountAdd(d, m, last);
    assert SetUsages(init) == UsagesOf(d, m);
    if last in init {
      assert last in d;
      assert Distinct(init + [last]) == d + [] == d;
    } else {
      assert last !in d && last !in m;
      UsagesOfAppend(d, m', last);
      assert SetUsages(init + [last]) == UsagesOf(d + [last], m');
    }
  }

  /** Appending a key extends the distinct keys by it exactly when it is new. */
  lemma DistinctAppend(keys: seq<string>, key: string)
    ensures Distinct(keys + [key]) == Distinct(keys) + (if key in keys then [] else [key])
  {
  }

  // ===========================================================================
  // The whole pipeline
  // ===========================================================================

  /** The numbers and flags the report shows. */
  datatype Report = Report(volume: VolumeQuota, identifierSets: seq<SetUsage>)

  /** The recent, deduplicated Let's Encrypt certificates. */
  function RecentCerts(allCerts: seq<Cert>, weekAgo: string): seq<Cert>
  {
    Deduplicated(Filtered(allCerts, weekAgo))
  }

  /** Lines 53-99 of `main`, with the fetched records and the boundary as
      inputs. */
  method CheckRateLimits(allCerts: seq<Cert>, weekAgo: string) returns (report: Report)
    ensures report.volume == QuotaA(RecentCerts(allCerts, weekAgo))
    ensures report.identifierSets == SetUsages(IdentifierSets(RecentCerts(allCerts, weekAgo)))
  {
    var letsencrypt := FilterLetsEncrypt(allCerts, weekAgo);
    var recent := DedupBySerial(letsencrypt);
    var volume := QuotaA(recent);
    var identifierSets := CollectIdentifierSets(recent);
    var usages := CountSets(identifierSets);
    report := Report(volume, usages);
  }

  /** The certificate count is the number of distinct serials among the
      recent Let's Encrypt records, and at most the number of records. */
  lemma QuotaACountsDistinctSerials(allCerts: seq<Cert>, weekAgo: string)
    ensures QuotaA(RecentCerts(allCerts, weekAgo)).certCount == |SerialSet(Filtered(allCerts, weekAgo))|
    ensures QuotaA(RecentCerts(allCerts, weekAgo)).certCount <= |allCerts|
  {
    var f := Filtered(allCerts, weekAgo);
    var d := Deduplicated(f);
    DedupSerialsUnique(f);
    UniqueSerialsCount(d);
    DedupIsSubsequence(f);
    FilteredIsSubsequence(allCerts, weekAgo);
    SubsequenceNoLonger(d, f);
    SubsequenceNoLonger(f, allCerts);
  }

  /** With distinct non-empty serials, there are as many serials as records. */
  lemma {:induction false} UniqueSerialsCount(certs: seq<Cert>)
    requires UniqueSerials(certs)
    ensures |SerialSet(certs)| == |certs|
  {
    if certs != [] {
      var init, last := certs[..|certs| - 1], certs[|certs| - 1];
      UniqueSerialsCount(init);
      assert certs == init + [last];
      assert SerialOf(last) !in SerialSet(init);
      assert SerialSet(certs) == SerialSet(init) + {SerialOf(last)};
    }
  }
}

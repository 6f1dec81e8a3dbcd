/** Canonical scope collections (vyuh/src/scopes.rs). A scope is the byte string of its name; names are ordered as
    Rust orders strings, byte by byte. */
module Scopes {
  import opened Wrappers
  import opened Bytes

  const MAX_SCOPES := 128
  const MAX_SCOPE_BYTES := 128
  const MAX_SCOPES_BYTES := 8 * 1024
  const USIZE_MAX := 0xffff_ffff_ffff_ffff
  const SPACE: byte := 32

  datatype ScopeRuleError = Empty | Duplicate | Invalid

  // ---------------------------------------------------------------------------
  // The order of names
  // ---------------------------------------------------------------------------

  predicate Less(a: bytes, b: bytes) {
    if b == [] then false
    else if a == [] then true
    else a[0] < b[0] || (a[0] == b[0] && Less(a[1..], b[1..]))
  }

  lemma {:induction false} LessIsTotal(a: bytes, b: bytes)
    ensures a == b || Less(a, b) || Less(b, a)
    ensures !(Less(a, b) && Less(b, a)) && !Less(a, a)
  {
    if a != [] {
      LessIsTotal(a[1..], a[1..]);
      if b != [] {
        LessIsTotal(a[1..], b[1..]);
        assert a == [a[0]] + a[1..] && b == [b[0]] + b[1..];
      }
    }
  }

  lemma {:induction false} LessIsTransitive(a: bytes, b: bytes, c: bytes)
    requires Less(a, b) && Less(b, c)
    ensures Less(a, c)
  {
    if a != [] && a[0] == b[0] == c[0] {
      LessIsTransitive(a[1..], b[1..], c[1..]);
    }
  }

  predicate AtMost(a: bytes, b: bytes) {
    a == b || Less(a, b)
  }

  predicate IsSorted(s: seq<bytes>) {
    forall i, j :: 0 <= i < j < |s| ==> AtMost(s[i], s[j])
  }

  predicate StrictlyIncreasing(s: seq<bytes>) {
    forall i, j :: 0 <= i < j < |s| ==> Less(s[i], s[j])
  }

  // ---------------------------------------------------------------------------
  // Sorting: the standard library's sort is any sorted permutation, here by insertion
  // ---------------------------------------------------------------------------

  function Placed(x: bytes, s: seq<bytes>): seq<bytes> {
    if s == [] || AtMost(x, s[0]) then [x] + s else [s[0]] + Placed(x, s[1..])
  }

  function Sorted(s: seq<bytes>): seq<bytes> {
    if s == [] then [] else Placed(s[0], Sorted(s[1..]))
  }

  lemma {:induction false} PlacedIsPermutation(x: bytes, s: seq<bytes>)
    ensures multiset(Placed(x, s)) == multiset(s) + multiset{x}
  {
    if s != [] && !AtMost(x, s[0]) {
      PlacedIsPermutation(x, s[1..]);
      assert s == [s[0]] + s[1..];
    }
  }

  lemma PlacedBelow(low: bytes, x: bytes, s: seq<bytes>)
    requires AtMost(low, x) && forall j :: 0 <= j < |s| ==> AtMost(low, s[j])
    ensures forall j :: 0 <= j < |Placed(x, s)| ==> AtMost(low, Placed(x, s)[j])
  {
    forall j | 0 <= j < |Placed(x, s)|
      ensures AtMost(low, Placed(x, s)[j])
    {
      PlacedIsPermutation(x, s);
      assert Placed(x, s)[j] in multiset(Placed(x, s));
    }
  }

  lemma {:induction false} PlacedIsSorted(x: bytes, s: seq<bytes>)
    requires IsSorted(s)
    ensures IsSorted(Placed(x, s))
  {
    if s == [] {
    } else if AtMost(x, s[0]) {
      forall j | 0 <= j < |s|
        ensures AtMost(x, s[j])
      {
        if j > 0 && Less(x, s[0]) && Less(s[0], s[j]) {
          LessIsTransitive(x, s[0], s[j]);
        }
      }
    } else {
      PlacedIsSorted(x, s[1..]);
      LessIsTotal(x, s[0]);
      PlacedBelow(s[0], x, s[1..]);
    }
  }

  lemma {:induction false} SortedIsSorted(s: seq<bytes>)
    ensures IsSorted(Sorted(s)) && multiset(Sorted(s)) == multiset(s)
  {
    if s != [] {
      SortedIsSorted(s[1..]);
      PlacedIsSorted(s[0], Sorted(s[1..]));
      PlacedIsPermutation(s[0], Sorted(s[1..]));
      assert s == [s[0]] + s[1..];
    }
  }

  lemma SameElements(s: seq<bytes>, t: seq<bytes>)
    requires multiset(s) == multiset(t)
    ensures |s| == |t|
    ensures forall x :: x in s <==> x in t
  {
    assert |multiset(s)| == |multiset(t)|;
    assert forall x :: x in s <==> x in multiset(s);
  }

  // ---------------------------------------------------------------------------
  // Normalizing
  // ---------------------------------------------------------------------------

  /** Sorts, then drops every scope equal to the one before it. */
  method Normalize(values: seq<bytes>) returns (scopes: seq<bytes>)
    ensures StrictlyIncreasing(scopes)
    ensures forall x :: x in scopes <==> x in values
  {
    var sorted := Sorted(values);
    SortedIsSorted(values);
    SameElements(sorted, values);
    scopes := [];
    for k := 0 to |sorted|
      invariant StrictlyIncreasing(scopes)
      invariant forall x :: x in scopes <==> x in sorted[..k]
      invariant scopes != [] ==> k > 0 && scopes[|scopes| - 1] == sorted[k - 1]
      invariant scopes == [] ==> k == 0
    {
      if scopes == [] || scopes[|scopes| - 1] != sorted[k] {
        forall i | 0 <= i < |scopes|
          ensures Less(scopes[i], sorted[k])
        {
          var last := scopes[|scopes| - 1];
          assert AtMost(sorted[k - 1], sorted[k]);
          if i < |scopes| - 1 {
            LessIsTransitive(scopes[i], last, sorted[k]);
          }
        }
        scopes := scopes + [sorted[k]];
      }
      assert sorted[..k + 1] == sorted[..k] + [sorted[k]];
    }
    assert sorted[..|sorted|] == sorted;
  }

  /** There is one strictly increasing sequence of any set of scopes, so normalizing equal sets gives equal results. */
  lemma {:induction false} NormalFormIsUnique(s: seq<bytes>, t: seq<bytes>)
    requires StrictlyIncreasing(s) && StrictlyIncreasing(t)
    requires forall x :: x in s <==> x in t
    ensures s == t
  {
    if s == [] {
      assert forall i :: 0 <= i < |t| ==> t[i] in t;
    } else {
      assert s[0] in t && t != [];
      LeastFirst(s, t);
      LeastFirst(t, s);
      LessIsTotal(s[0], t[0]);
      forall x
        ensures x in s[1..] <==> x in t[1..]
      {
        InTail(s, x);
        InTail(t, x);
      }
      NormalFormIsUnique(s[1..], t[1..]);
      assert s == [s[0]] + s[1..] && t == [t[0]] + t[1..];
    }
  }

  lemma LeastFirst(s: seq<bytes>, t: seq<bytes>)
    requires s != [] && StrictlyIncreasing(t) && s[0] in t
    ensures t[0] == s[0] || Less(t[0], s[0])
  {
  }

  lemma InTail(s: seq<bytes>, x: bytes)
    requires StrictlyIncreasing(s) && s != []
    ensures x in s[1..] <==> x in s && x != s[0]
  {
    LessIsTotal(s[0], s[0]);
    if x in s && x != s[0] {
      var i :| 0 <= i < |s| && s[i] == x;
      assert s[1..][i - 1] == x;
    }
    if x in s[1..] {
      var i :| 0 <= i < |s[1..]| && s[1..][i] == x;
      assert Less(s[0], s[i + 1]);
    }
  }

  // ---------------------------------------------------------------------------
  // Validating
  // ---------------------------------------------------------------------------

  predicate ValidName(value: bytes) {
    && value != [] && |value| <= MAX_SCOPE_BYTES
    && forall i :: 0 <= i < |value| ==> value[i] == 33 || 35 <= value[i] <= 91 || 93 <= value[i] <= 126
  }

  function CheckedAdd(a: nat, b: nat): Option<nat> {
    if a + b <= USIZE_MAX then Some(a + b) else None
  }

  /** The scope list as a token carries it: names separated by single spaces (section 3.3 of RFC 6749). */
  function SpaceJoined(scopes: seq<bytes>): bytes {
    if scopes == [] then []
    else if |scopes| == 1 then scopes[0]
    else SpaceJoined(scopes[..|scopes| - 1]) + [SPACE] + scopes[|scopes| - 1]
  }

  /** The limits in force: few enough scopes, each a valid name, and a joined list that is short enough. */
  predicate WithinLimits(scopes: seq<bytes>) {
    && |scopes| <= MAX_SCOPES
    && (forall i :: 0 <= i < |scopes| ==> ValidName(scopes[i]))
    && |SpaceJoined(scopes)| <= MAX_SCOPES_BYTES
  }

  /** A name is 1 to 128 printable characters of ASCII other than the space, the quote and the backslash; a list has at
      most 128 names and 8192 bytes. */
  lemma Limits(scopes: seq<bytes>)
    ensures WithinLimits(scopes) <==>
            && |scopes| <= 128 && |SpaceJoined(scopes)| <= 8192
            && forall i :: 0 <= i < |scopes| ==> 1 <= |scopes[i]| <= 128 && Printable(scopes[i])
  {
  }

  predicate Printable(name: bytes) {
    forall i :: 0 <= i < |name| ==> 32 < name[i] < 127 && name[i] != 34 && name[i] != 92
  }

  /** The last space separates the last name from the others. */
  lemma LastName(a: bytes, x: bytes, b: bytes, y: bytes)
    requires a + [SPACE] + x == b + [SPACE] + y && SPACE !in x && SPACE !in y
    ensures a == b && x == y
  {
    var s := a + [SPACE] + x;
    assert s[|a|] == SPACE && s[|b|] == SPACE;
    assert forall k :: |a| < k < |s| ==> s[k] == x[k - |a| - 1];
    assert forall k :: |b| < k < |s| ==> s[k] == y[k - |b| - 1];
    assert |a| == |b|;
    assert a == s[..|a|] && b == s[..|b|] && x == s[|a| + 1..] && y == s[|b| + 1..];
  }

  lemma OneName(name: bytes, t: seq<bytes>)
    requires SPACE !in name && t != [] && name == SpaceJoined(t)
    ensures t == [name]
  {
    SpaceBetween(t);
  }

  lemma SpaceBetween(t: seq<bytes>)
    ensures |t| > 1 ==> SPACE in SpaceJoined(t)
  {
    if |t| > 1 {
      var front := SpaceJoined(t[..|t| - 1]);
      assert (front + [SPACE] + t[|t| - 1])[|front|] == SPACE;
    }
  }

  /** A list of names is read back from the text that carries it. */
  lemma {:induction false} JoinedIsUnique(s: seq<bytes>, t: seq<bytes>)
    requires forall i :: 0 <= i < |s| ==> ValidName(s[i])
    requires forall i :: 0 <= i < |t| ==> ValidName(t[i])
    requires SpaceJoined(s) == SpaceJoined(t)
    ensures s == t
  {
    if |s| <= 1 || |t| <= 1 {
      if |s| == 1 && t != [] {
        OneName(s[0], t);
      }
      if |t| == 1 && s != [] {
        OneName(t[0], s);
      }
    } else {
      var m, n := |s| - 1, |t| - 1;
      LastName(SpaceJoined(s[..m]), s[m], SpaceJoined(t[..n]), t[n]);
      JoinedIsUnique(s[..m], t[..n]);
      assert s == s[..m] + [s[m]] && t == t[..n] + [t[n]];
    }
  }

  /** The running total is one more than the joined length, and never overflows. */
  method ValidateScopes(scopes: seq<bytes>) returns (r: Result<(), ScopeRuleError>)
    ensures r == if WithinLimits(scopes) then Ok(()) else Err(Invalid)
  {
    if |scopes| > MAX_SCOPES || exists i :: 0 <= i < |scopes| && !ValidName(scopes[i]) {
      return Err(Invalid);
    }
    var total: Option<nat> := Some(0);
    for k := 0 to |scopes|
      invariant total == Some(if k == 0 then 0 else |SpaceJoined(scopes[..k])| + 1)
      invariant total.Some? && total.value <= k * (MAX_SCOPE_BYTES + 1)
    {
      assert scopes[..k + 1][..k] == scopes[..k];
      total := CheckedAdd(total.value, |scopes[k]|);
      if total.Some? {
        total := CheckedAdd(total.value, 1);
      }
    }
    assert scopes[..|scopes|] == scopes;
    if total.None? || (if total.value == 0 then 0 else total.value - 1) > MAX_SCOPES_BYTES {
      return Err(Invalid);
    }
    return Ok(());
  }

  predicate Distinct(s: seq<bytes>) {
    forall i, j :: 0 <= i < j < |s| ==> s[i] != s[j]
  }

  /** In a sorted sequence equal entries are neighbours. */
  lemma AdjacentIfDuplicate(s: seq<bytes>)
    requires IsSorted(s)
    ensures Distinct(s) <==> forall i :: 0 <= i < |s| - 1 ==> s[i] != s[i + 1]
  {
    if i, j :| 0 <= i < j < |s| && s[i] == s[j] {
      assert AtMost(s[i], s[i + 1]);
      if i + 1 < j {
        assert AtMost(s[i + 1], s[j]);
        LessIsTotal(s[i], s[i + 1]);
      }
      assert s[i] == s[i + 1];
    }
  }

  lemma {:induction false} CountOnce(s: seq<bytes>)
    ensures Distinct(s) <==> forall x :: multiset(s)[x] <= 1
  {
    if s != [] {
      var n := |s| - 1;
      CountOnce(s[..n]);
      assert s == s[..n] + [s[n]];
      if Distinct(s) {
        assert forall i, j :: 0 <= i < j < n ==> s[..n][i] == s[i] && s[..n][j] == s[j];
        assert s[n] !in s[..n];
      } else {
        var i, j :| 0 <= i < j < |s| && s[i] == s[j];
        if j == n {
          assert s[..n][i] == s[n];
          assert s[n] in multiset(s[..n]);
          assert multiset(s)[s[n]] >= 2;
        } else {
          assert s[..n][i] == s[..n][j];
          assert !Distinct(s[..n]);
          var x :| multiset(s[..n])[x] > 1;
          assert multiset(s)[x] > 1;
        }
      }
    }
  }

  /** Equal entries stay equal however a sequence is ordered. */
  lemma DistinctIsAboutContents(s: seq<bytes>, t: seq<bytes>)
    requires multiset(s) == multiset(t)
    ensures Distinct(s) <==> Distinct(t)
  {
    CountOnce(s);
    CountOnce(t);
  }

  /** Sorts a rule in place; the error tells whether it was empty, over a limit, or repeated a scope anywhere. */
  method NormalizeRule(scopes: array<bytes>) returns (r: Result<(), ScopeRuleError>)
    modifies scopes
    ensures multiset(scopes[..]) == multiset(old(scopes[..]))
    ensures r == if old(scopes[..]) == [] then Err(Empty)
                 else if !WithinLimits(old(scopes[..])) then Err(Invalid)
                 else if !Distinct(old(scopes[..])) then Err(Duplicate)
                 else Ok(())
    ensures r == Err(Empty) || r == Err(Invalid) ==> scopes[..] == old(scopes[..])
    ensures r == Err(Duplicate) ==> IsSorted(scopes[..])
    ensures r.Ok? ==> StrictlyIncreasing(scopes[..])
  {
    if scopes.Length == 0 {
      return Err(Empty);
    }
    var valid := ValidateScopes(scopes[..]);
    if valid.Err? {
      return valid;
    }
    var sorted := Sorted(scopes[..]);
    SortedIsSorted(scopes[..]);
    SameElements(sorted, scopes[..]);
    forall i | 0 <= i < scopes.Length {
      scopes[i] := sorted[i];
    }
    assert scopes[..] == sorted;
    AdjacentIfDuplicate(sorted);
    DistinctIsAboutContents(sorted, old(scopes[..]));
    if exists i :: 0 <= i < scopes.Length - 1 && scopes[i] == scopes[i + 1] {
      return Err(Duplicate);
    }
    return Ok(());
  }
}

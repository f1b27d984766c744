/** Python's `str.replace(t, "")`: delete every occurrence of `t`, scanning
    left to right, occurrences never overlapping. `Remove` is the model used by
    the rest of the project; `ReplaceAll` is an independent reference built on
    `Find` (the first-occurrence search, as `str.find` returns it), and the two
    are proved equal. */
module Replace {

  datatype Option<T> = None | Some(value: T)

  /** `t` occurs in `s` starting at index `j`. */
  predicate Occurs(s: string, t: string, j: int) {
    0 <= j && j + |t| <= |s| && s[j..j + |t|] == t
  }

  /** `t` occurs somewhere in `s` (Python's `t in s`). */
  predicate Contains(s: string, t: string) {
    exists j | 0 <= j <= |s| :: Occurs(s, t, j)
  }

  /** The result of `s.replace(t, "")`. An empty pattern leaves `s` as it is;
      otherwise a prefix equal to `t` is dropped and scanning resumes after it,
      and any other first character is kept. */
  function Remove(s: string, t: string): (r: string)
    ensures |r| <= |s|
    decreases |s|
  {
    if |t| == 0 || |s| < |t| then s
    else if s[..|t|] == t then Remove(s[|t|..], t)
    else [s[0]] + Remove(s[1..], t)
  }

  /** Index of the first occurrence of `t` in `s`, if any (Python's `s.find(t)`,
      with `None` for -1). */
  function Find(s: string, t: string): (r: Option<nat>)
    ensures r.Some? ==> Occurs(s, t, r.value)
    ensures r.Some? ==> forall j :: 0 <= j < r.value ==> !Occurs(s, t, j)
    ensures r.None? ==> !Contains(s, t)
    decreases |s|
  {
    if |s| < |t| then None
    else if s[..|t|] == t then Some(0)
    else match Find(s[1..], t)
      case None =>
        assert forall j :: Occurs(s, t, j) ==> j == 0 || Occurs(s[1..], t, j - 1);
        None
      case Some(i) =>
        assert Occurs(s[1..], t, i) ==> s[1..][i..i + |t|] == s[i + 1..i + 1 + |t|];
        assert forall j :: 1 <= j <= i ==> (Occurs(s, t, j) ==> Occurs(s[1..], t, j - 1));
        Some(i + 1)
  }

  /** Reference definition of removal: copy everything up to the first
      occurrence, skip the occurrence, and continue after it. */
  function ReplaceAll(s: string, t: string): string
    requires |t| > 0
    decreases |s|
  {
    match Find(s, t)
    case None => s
    case Some(i) => s[..i] + ReplaceAll(s[i + |t|..], t)
  }

  /** Number of occurrences that a left-to-right, non-overlapping scan finds
      (Python's `s.count(t)` for a non-empty `t`). */
  function Occurrences(s: string, t: string): nat
    requires |t| > 0
    decreases |s|
  {
    match Find(s, t)
    case None => 0
    case Some(i) => 1 + Occurrences(s[i + |t|..], t)
  }

  /** `a` can be obtained from `b` by deleting characters. */
  predicate IsSubsequence(a: string, b: string)
    decreases |b|
  {
    if b == [] then a == []
    else (a != [] && a[0] == b[0] && IsSubsequence(a[1..], b[1..])) || IsSubsequence(a, b[1..])
  }

  /** Occurrences in `s[1..]` are the occurrences in `s` shifted by one. */
  lemma OccursInTail(s: string, t: string, j: nat)
    requires |s| > 0
    ensures Occurs(s[1..], t, j) <==> Occurs(s, t, j + 1)
  {
    if j + |t| <= |s| - 1 {
      assert s[1..][j..j + |t|] == s[j + 1..j + 1 + |t|];
    }
  }

  /** Scanning past a stretch with no occurrence copies that stretch. */
  lemma {:induction false} RemoveCopiesPrefix(s: string, t: string, i: nat)
    requires |t| > 0 && i <= |s|
    requires forall j :: 0 <= j < i ==> !Occurs(s, t, j)
    ensures Remove(s, t) == s[..i] + Remove(s[i..], t)
    decreases i
  {
    if i == 0 {
      assert s[..0] + s[0..] == s;
    } else if |s| < |t| {
      assert s[..i] + s[i..] == s;
    } else {
      assert !Occurs(s, t, 0);
      assert Remove(s, t) == [s[0]] + Remove(s[1..], t);
      forall j | 0 <= j < i - 1 ensures !Occurs(s[1..], t, j) {
        OccursInTail(s, t, j);
      }
      RemoveCopiesPrefix(s[1..], t, i - 1);
      assert s[1..][i - 1..] == s[i..];
      assert [s[0]] + s[1..][..i - 1] == s[..i];
    }
  }

  /** `Remove` agrees with the `Find`-based reference definition. */
  lemma {:induction false} RemoveIsReplaceAll(s: string, t: string)
    requires |t| > 0
    ensures Remove(s, t) == ReplaceAll(s, t)
    decreases |s|
  {
    match Find(s, t)
    case None =>
      RemoveCopiesPrefix(s, t, |s|);
      assert s[..|s|] == s;
    case Some(i) =>
      RemoveCopiesPrefix(s, t, i);
      var rest := s[i..];
      assert rest[..|t|] == t;
      assert rest[|t|..] == s[i + |t|..];
      RemoveIsReplaceAll(s[i + |t|..], t);
  }

  lemma MulSucc(a: nat, k: nat)
    ensures a * (1 + k) == a + a * k
  {
  }

  lemma MulAtLeast(a: nat, k: nat)
    requires k >= 1
    ensures a * k >= a
  {
  }

  /** Each removed occurrence shortens the string by exactly `|t|`. */
  lemma {:induction false} ReplaceAllLength(s: string, t: string)
    requires |t| > 0
    ensures |ReplaceAll(s, t)| == |s| - |t| * Occurrences(s, t)
    decreases |s|
  {
    match Find(s, t)
    case None =>
      assert Occurrences(s, t) == 0;
    case Some(i) =>
      var rest := s[i + |t|..];
      ReplaceAllLength(rest, t);
      var k := Occurrences(rest, t);
      assert Occurrences(s, t) == 1 + k;
      assert |ReplaceAll(s, t)| == i + |ReplaceAll(rest, t)|;
      assert |s| == i + |t| + |rest|;
      MulSucc(|t|, k);
  }

  /** The length of the result is the input length minus `|t|` for every
      occurrence that the scan removes. */
  lemma RemoveLength(s: string, t: string)
    requires |t| > 0
    ensures |Remove(s, t)| == |s| - |t| * Occurrences(s, t)
  {
    RemoveIsReplaceAll(s, t);
    ReplaceAllLength(s, t);
  }

  /** A string is returned unchanged exactly when the pattern does not occur
      in it. */
  lemma RemoveUnchangedIff(s: string, t: string)
    requires |t| > 0
    ensures Remove(s, t) == s <==> !Contains(s, t)
  {
    if Contains(s, t) {
      RemoveLength(s, t);
      assert Find(s, t).Some?;
      MulAtLeast(|t|, Occurrences(s, t));
    } else {
      RemoveIsReplaceAll(s, t);
    }
  }

  /** Removal of the empty pattern is the identity, as in Python. */
  lemma RemoveEmptyPattern(s: string)
    ensures Remove(s, "") == s
  {
  }

  lemma {:induction false} SubsequenceOfSuffix(a: string, b: string, k: nat)
    requires k <= |b| && IsSubsequence(a, b[k..])
    ensures IsSubsequence(a, b)
    decreases k
  {
    if k > 0 {
      assert b[1..][k - 1..] == b[k..];
      SubsequenceOfSuffix(a, b[1..], k - 1);
    }
  }

  /** Removal only deletes characters: it never inserts or reorders them. */
  lemma {:induction false} RemoveIsSubsequence(s: string, t: string)
    ensures IsSubsequence(Remove(s, t), s)
    decreases |s|
  {
    if |t| == 0 || |s| < |t| {
      SubsequenceOfItself(s);
    } else if s[..|t|] == t {
      RemoveIsSubsequence(s[|t|..], t);
      SubsequenceOfSuffix(Remove(s[|t|..], t), s, |t|);
    } else {
      RemoveIsSubsequence(s[1..], t);
      var r := [s[0]] + Remove(s[1..], t);
      assert r[1..] == Remove(s[1..], t);
    }
  }

  lemma {:induction false} SubsequenceOfItself(s: string)
    ensures IsSubsequence(s, s)
    decreases |s|
  {
    if s != [] {
      SubsequenceOfItself(s[1..]);
    }
  }

  /** The result may still contain the pattern: removing `"ab"` from `"aabb"`
      leaves `"ab"`, so removal is neither EOS-free nor idempotent. */
  lemma RemoveMayLeaveOccurrence()
    ensures Remove("aabb", "ab") == "ab"
    ensures Contains(Remove("aabb", "ab"), "ab")
    ensures Remove(Remove("aabb", "ab"), "ab") != Remove("aabb", "ab")
  {
    assert Remove("bb", "ab") == "b" + Remove("b", "ab");
    assert Remove("abb", "ab") == Remove("b", "ab");
    assert Remove("aabb", "ab") == "a" + Remove("abb", "ab");
    assert Occurs("ab", "ab", 0);
    assert Remove("ab", "ab") == Remove("", "ab");
  }
}

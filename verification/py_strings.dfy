/** The parts of Python's `str` type that DistroHub relies on, over `seq<char>`:
    substring search (`sub in s`, `s.find`, `s.count`), `s.split(sep)`,
    `sep.join(pieces)` and `s.strip()` with no argument. */
module PyStrings {
  import opened Wrappers

  type String = seq<char>

  /** `sep` occurs in `s` starting at index `k`. */
  predicate OccursAt(s: String, sep: String, k: nat) {
    k + |sep| <= |s| && s[k..k + |sep|] == sep
  }

  /** Dropping the first character shifts every occurrence one to the left. */
  lemma ShiftOccurs(s: String, sep: String, k: nat)
    requires |s| > 0
    ensures OccursAt(s[1..], sep, k) <==> OccursAt(s, sep, k + 1)
  {
    if k + 1 + |sep| <= |s| {
      assert s[1..][k..k + |sep|] == s[k + 1..k + 1 + |sep|];
    }
  }

  /** An occurrence that ends within the first `n` characters is an
      occurrence in the prefix `s[..n]`, and conversely. */
  lemma PrefixOccurs(s: String, sep: String, n: nat, k: nat)
    requires n <= |s| && k + |sep| <= n
    ensures OccursAt(s[..n], sep, k) <==> OccursAt(s, sep, k)
  {
    assert s[..n][k..k + |sep|] == s[k..k + |sep|];
  }

  /** Python's `sub in s`: a left-to-right scan for a window equal to `sub`. */
  predicate Contains(s: String, sub: String)
    ensures |sub| == 0 ==> Contains(s, sub)
    ensures Contains(s, sub) ==> |sub| <= |s|
    decreases |s|
  {
    if |sub| > |s| then false
    else if s[..|sub|] == sub then true
    else Contains(s[1..], sub)
  }

  /** `sub in s` holds exactly when `sub` occurs at some index of `s`. */
  lemma {:induction false} ContainsIff(s: String, sub: String)
    ensures Contains(s, sub) <==> exists k: nat :: OccursAt(s, sub, k)
    decreases |s|
  {
    if |sub| > |s| {
      forall k: nat ensures !OccursAt(s, sub, k) { }
    } else if s[..|sub|] == sub {
      assert OccursAt(s, sub, 0);
    } else {
      ContainsIff(s[1..], sub);
      if Contains(s[1..], sub) {
        var k: nat :| OccursAt(s[1..], sub, k);
        ShiftOccurs(s, sub, k);
      } else {
        forall k: nat ensures !OccursAt(s, sub, k) {
          if k > 0 {
            ShiftOccurs(s, sub, k - 1);
          }
        }
      }
    }
  }

  /** A longer text contains everything its part contains. */
  lemma ContainsInSuperstring(a: String, b: String, c: String, sub: String)
    requires Contains(b, sub)
    ensures Contains(a + b + c, sub)
  {
    ContainsIff(b, sub);
    var k: nat :| OccursAt(b, sub, k);
    assert (a + b + c)[|a| + k..|a| + k + |sub|] == b[k..k + |sub|];
    assert OccursAt(a + b + c, sub, |a| + k);
    ContainsIff(a + b + c, sub);
  }

  /** Python's `s.find(sep, start)`: the leftmost index at or after `start`
      where `sep` occurs, or None. */
  function FindFrom(s: String, sep: String, start: nat): (r: Option<nat>)
    requires |sep| > 0 && start <= |s|
    ensures r.Some? ==> start <= r.value && OccursAt(s, sep, r.value)
    ensures r.Some? ==> forall k: nat :: start <= k < r.value ==> !OccursAt(s, sep, k)
    ensures r.None? ==> forall k: nat :: start <= k ==> !OccursAt(s, sep, k)
    decreases |s| - start
  {
    if start + |sep| > |s| then None
    else if s[start..start + |sep|] == sep then Some(start)
    else FindFrom(s, sep, start + 1)
  }

  /** Python's `s.split(sep)`: cut at the leftmost occurrence of `sep`, then
      split the rest; with no occurrence the whole string is the one piece. */
  function Split(s: String, sep: String): (pieces: seq<String>)
    requires |sep| > 0
    ensures |pieces| >= 1
    ensures |pieces| == 1 <==> pieces == [s]
    decreases |s|
  {
    match FindFrom(s, sep, 0)
    case None => [s]
    case Some(i) => [s[..i]] + Split(s[i + |sep|..], sep)
  }

  /** Python's `sep.join(pieces)`. */
  function Join(pieces: seq<String>, sep: String): String {
    if |pieces| == 0 then []
    else if |pieces| == 1 then pieces[0]
    else pieces[0] + sep + Join(pieces[1..], sep)
  }

  /** Cutting a string into three consecutive slices and concatenating them
      gives the string back. */
  lemma Reassemble(s: String, i: nat, n: nat)
    requires i + n <= |s|
    ensures s == s[..i] + s[i..i + n] + s[i + n..]
  {
  }

  /** Joining a piece in front of at least one other piece puts a separator
      between them. */
  lemma JoinCons(p: String, tail: seq<String>, sep: String)
    requires |tail| >= 1
    ensures Join([p] + tail, sep) == p + sep + Join(tail, sep)
  {
    assert ([p] + tail)[1..] == tail;
  }

  /** Python's `s.count(sep)`: non-overlapping occurrences, scanning left to
      right one character at a time. */
  function Count(s: String, sep: String): nat
    requires |sep| > 0
    decreases |s|
  {
    if |s| < |sep| then 0
    else if s[..|sep|] == sep then 1 + Count(s[|sep|..], sep)
    else Count(s[1..], sep)
  }

  /** Cutting `s` at an occurrence of `sep` at index `i`: the head, the
      separator and the rest make up `s`. */
  lemma CutAt(s: String, sep: String, i: nat)
    requires OccursAt(s, sep, i)
    ensures s == s[..i] + sep + s[i + |sep|..]
  {
    Reassemble(s, i, |sep|);
  }

  /** Joining the pieces of a split with the same separator gives back the
      original string. */
  lemma {:induction false} SplitJoin(s: String, sep: String)
    requires |sep| > 0
    ensures Join(Split(s, sep), sep) == s
    decreases |s|
  {
    var f := FindFrom(s, sep, 0);
    if f.Some? {
      var i := f.value;
      var rest := s[i + |sep|..];
      var tail := Split(rest, sep);
      assert Split(s, sep) == [s[..i]] + tail;
      SplitJoin(rest, sep);
      JoinCons(s[..i], tail, sep);
      CutAt(s, sep, i);
    }
  }

  /** A string in which `sep` never occurs at an index before `j` counts the
      same as its suffix from `j`. */
  lemma {:induction false} CountSkip(s: String, sep: String, j: nat)
    requires |sep| > 0 && j <= |s|
    requires forall k: nat :: k < j ==> !OccursAt(s, sep, k)
    ensures Count(s, sep) == Count(s[j..], sep)
    decreases j
  {
    if j > 0 {
      if |s| < |sep| {
        assert |s[j..]| < |sep|;
      } else {
        assert !OccursAt(s, sep, 0);
        assert Count(s, sep) == Count(s[1..], sep);
        forall k: nat | k < j - 1 ensures !OccursAt(s[1..], sep, k) {
          ShiftOccurs(s, sep, k);
        }
        CountSkip(s[1..], sep, j - 1);
        assert s[1..][j - 1..] == s[j..];
      }
    }
  }

  /** A split yields one piece more than there are occurrences of `sep`. */
  lemma {:induction false} SplitCount(s: String, sep: String)
    requires |sep| > 0
    ensures |Split(s, sep)| == Count(s, sep) + 1
    decreases |s|
  {
    match FindFrom(s, sep, 0)
    case None =>
      CountSkip(s, sep, |s|);
    case Some(i) =>
      CountSkip(s, sep, i);
      var t := s[i..];
      assert t[..|sep|] == sep;
      assert t[|sep|..] == s[i + |sep|..];
      SplitCount(s[i + |sep|..], sep);
  }

  /** No piece of a split contains the separator. */
  lemma {:induction false} SplitPiecesFree(s: String, sep: String)
    requires |sep| > 0
    ensures forall p :: p in Split(s, sep) ==> !Contains(p, sep)
    decreases |s|
  {
    match FindFrom(s, sep, 0)
    case None =>
      ContainsIff(s, sep);
    case Some(i) =>
      var head := s[..i];
      forall k: nat ensures !OccursAt(head, sep, k) {
        if k + |sep| <= i {
          PrefixOccurs(s, sep, i, k);
        }
      }
      ContainsIff(head, sep);
      SplitPiecesFree(s[i + |sep|..], sep);
  }

  /** A string counts zero occurrences of `sep` exactly when it does not
      contain it. */
  lemma CountZeroIff(s: String, sep: String)
    requires |sep| > 0
    ensures Count(s, sep) == 0 <==> !Contains(s, sep)
  {
    SplitCount(s, sep);
    SplitJoin(s, sep);
    SplitPiecesFree(s, sep);
    var pieces := Split(s, sep);
    if |pieces| == 1 {
      assert Join(pieces, sep) == pieces[0];
      assert pieces[0] in pieces;
    } else {
      JoinCons(pieces[0], pieces[1..], sep);
      assert pieces == [pieces[0]] + pieces[1..];
      assert Contains(pieces[0] + sep + Join(pieces[1..], sep), sep) by {
        assert Contains(sep, sep);
        ContainsInSuperstring(pieces[0], sep, Join(pieces[1..], sep), sep);
      }
    }
  }

  /** Cutting `p` off in front of a separator cuts at the first occurrence:
      `sep` does not occur in `p + sep` before the separator itself. */
  predicate FirstCut(p: String, sep: String) {
    forall k: nat :: k < |p| ==> !OccursAt(p + sep, sep, k)
  }

  /** `pieces` is a leftmost decomposition of `s` around `sep`: the pieces
      joined with `sep` give `s`, each cut is made at the first occurrence of
      `sep` still available, and the last piece holds no occurrence at all. */
  ghost predicate LeftmostDecomposition(pieces: seq<String>, sep: String, s: String) {
    && |pieces| >= 1
    && Join(pieces, sep) == s
    && (forall i :: 0 <= i < |pieces| - 1 ==> FirstCut(pieces[i], sep))
    && !Contains(pieces[|pieces| - 1], sep)
  }

  /** The piece before the leftmost occurrence is cut at the first
      occurrence. */
  lemma HeadIsFirstCut(s: String, sep: String, i: nat)
    requires |sep| > 0 && FindFrom(s, sep, 0) == Some(i)
    ensures FirstCut(s[..i], sep)
  {
    var cut := s[..i + |sep|];
    assert s[..i] + sep == cut;
    forall k: nat | k < i ensures !OccursAt(cut, sep, k) {
      assert !OccursAt(s, sep, k);
      PrefixOccurs(s, sep, i + |sep|, k);
    }
  }

  /** Every cut a split makes is at the first occurrence still available. */
  lemma {:induction false} SplitCutsFirst(s: String, sep: String)
    requires |sep| > 0
    ensures forall i :: 0 <= i < |Split(s, sep)| - 1 ==> FirstCut(Split(s, sep)[i], sep)
    decreases |s|
  {
    var f := FindFrom(s, sep, 0);
    if f.Some? {
      var i := f.value;
      var rest := s[i + |sep|..];
      var tail := Split(rest, sep);
      var pieces := [s[..i]] + tail;
      assert Split(s, sep) == pieces;
      SplitCutsFirst(rest, sep);
      HeadIsFirstCut(s, sep, i);
      forall j | 0 <= j < |pieces| - 1 ensures FirstCut(pieces[j], sep) {
        if j == 0 {
          assert pieces[0] == s[..i];
        } else {
          assert pieces[j] == tail[j - 1];
        }
      }
    }
  }

  /** Python's split produces a leftmost decomposition ... */
  lemma SplitIsLeftmost(s: String, sep: String)
    requires |sep| > 0
    ensures LeftmostDecomposition(Split(s, sep), sep, s)
  {
    SplitJoin(s, sep);
    SplitCutsFirst(s, sep);
    SplitPiecesFree(s, sep);
    var pieces := Split(s, sep);
    assert pieces[|pieces| - 1] in pieces;
  }

  /** ... and it is the only one: any leftmost decomposition is the split. */
  lemma {:induction false} LeftmostIsSplit(pieces: seq<String>, sep: String, s: String)
    requires |sep| > 0
    requires LeftmostDecomposition(pieces, sep, s)
    ensures pieces == Split(s, sep)
    decreases |pieces|
  {
    if |pieces| == 1 {
      ContainsIff(s, sep);
      assert FindFrom(s, sep, 0).None?;
    } else {
      var p := pieces[0];
      var tail := pieces[1..];
      var rest := Join(tail, sep);
      assert s == p + sep + rest;
      assert s[..|p| + |sep|] == p + sep;
      assert OccursAt(s, sep, |p|);
      assert FirstCut(p, sep);
      forall k: nat | k < |p| ensures !OccursAt(s, sep, k) {
        PrefixOccurs(s, sep, |p| + |sep|, k);
      }
      assert FindFrom(s, sep, 0) == Some(|p|);
      assert s[|p| + |sep|..] == rest;
      assert s[..|p|] == p;
      assert LeftmostDecomposition(tail, sep, rest) by {
        forall i | 0 <= i < |tail| - 1 ensures FirstCut(tail[i], sep) {
          assert tail[i] == pieces[i + 1];
        }
        assert tail[|tail| - 1] == pieces[|pieces| - 1];
      }
      LeftmostIsSplit(tail, sep, rest);
      assert pieces == [p] + tail;
    }
  }

  /** Python's `str.isspace` for one character: the code points Python's
      `strip()` with no argument removes. */
  predicate IsSpace(c: char)
    ensures c < '\U{80}' ==> (IsSpace(c) <==> c in "\t\n\U{B}\U{C}\r\U{1C}\U{1D}\U{1E}\U{1F} ")
    ensures IsSpace(c) ==> c <= '\U{3000}'
  {
    || ('\U{9}' <= c <= '\U{D}')
    || ('\U{1C}' <= c <= '\U{20}')
    || c == '\U{85}' || c == '\U{A0}' || c == '\U{1680}'
    || ('\U{2000}' <= c <= '\U{200A}')
    || c == '\U{2028}' || c == '\U{2029}' || c == '\U{202F}'
    || c == '\U{205F}' || c == '\U{3000}'
  }

  /** The characters of `s` from index `lo` up to (not including) `hi` are
      all whitespace. */
  predicate SpaceBetween(s: String, lo: nat, hi: nat)
    requires lo <= hi <= |s|
  {
    forall k :: lo <= k < hi ==> IsSpace(s[k])
  }

  /** `s` neither starts nor ends with whitespace. */
  predicate Trimmed(s: String) {
    |s| == 0 || (!IsSpace(s[0]) && !IsSpace(s[|s| - 1]))
  }

  /** The scan from the left in Python's `strip()`: from index `i`, skip
      whitespace; the result is the first non-space index, or `|s|`. */
  function SkipSpaceForward(s: String, i: nat): (j: nat)
    requires i <= |s|
    ensures i <= j <= |s| && SpaceBetween(s, i, j)
    ensures j == |s| || !IsSpace(s[j])
    decreases |s| - i
  {
    if i < |s| && IsSpace(s[i]) then SkipSpaceForward(s, i + 1) else i
  }

  /** The scan from the right in Python's `strip()`: from end index `j`, move
      left over whitespace but never below `lo`. */
  function SkipSpaceBackward(s: String, lo: nat, j: nat): (b: nat)
    requires lo <= j <= |s|
    ensures lo <= b <= j && SpaceBetween(s, b, j)
    ensures b == lo || !IsSpace(s[b - 1])
    decreases j
  {
    if j > lo && IsSpace(s[j - 1]) then SkipSpaceBackward(s, lo, j - 1) else j
  }

  /** Python's `s.strip()` with no argument: skip whitespace from the left,
      then from the right down to where the left scan stopped, and keep what
      lies between. The result has no whitespace at either end. */
  function Strip(s: String): (r: String)
    ensures Trimmed(r) && |r| <= |s|
  {
    var a := SkipSpaceForward(s, 0);
    var b := SkipSpaceBackward(s, a, |s|);
    s[a..b]
  }

  /** What Strip removes from either end is whitespace only: the result is a
      slice of the input with nothing but whitespace around it. */
  lemma StripIsSlice(s: String)
    ensures exists a: nat, b: nat :: a <= b <= |s| && Strip(s) == s[a..b] && SpaceBetween(s, 0, a) && SpaceBetween(s, b, |s|)
  {
    var a := SkipSpaceForward(s, 0);
    var b := SkipSpaceBackward(s, a, |s|);
    assert Strip(s) == s[a..b];
  }

  /** With only whitespace from `i` to `a` and no whitespace at `a`, the left
      scan from `i` stops exactly at `a`. */
  lemma {:induction false} SkipSpaceForwardAt(s: String, i: nat, a: nat)
    requires i <= a <= |s| && SpaceBetween(s, i, a)
    requires a == |s| || !IsSpace(s[a])
    ensures SkipSpaceForward(s, i) == a
    decreases a - i
  {
    if i < a {
      SkipSpaceForwardAt(s, i + 1, a);
    }
  }

  /** With only whitespace from `b` to `j` and no whitespace just before `b`
      (or `b` at the lower bound), the right scan from `j` stops exactly at `b`. */
  lemma {:induction false} SkipSpaceBackwardAt(s: String, lo: nat, j: nat, b: nat)
    requires lo <= b <= j <= |s| && SpaceBetween(s, b, j)
    requires b == lo || !IsSpace(s[b - 1])
    ensures SkipSpaceBackward(s, lo, j) == b
    decreases j
  {
    if b < j {
      SkipSpaceBackwardAt(s, lo, j - 1, b);
    }
  }

  /** Strip is fully determined by its contract: whenever `s[a..b]` has no
      whitespace at either end and only whitespace surrounds it, it is the
      stripped string. */
  lemma StripUnique(s: String, a: nat, b: nat)
    requires a <= b <= |s|
    requires SpaceBetween(s, 0, a) && SpaceBetween(s, b, |s|) && Trimmed(s[a..b])
    ensures Strip(s) == s[a..b]
  {
    if a == b {
      assert SpaceBetween(s, 0, |s|);
      SkipSpaceForwardAt(s, 0, |s|);
      SkipSpaceBackwardAt(s, |s|, |s|, |s|);
    } else {
      assert s[a] == s[a..b][0];
      assert s[b - 1] == s[a..b][b - a - 1];
      SkipSpaceForwardAt(s, 0, a);
      SkipSpaceBackwardAt(s, a, |s|, b);
    }
  }

  /** A trimmed string is its own strip, so stripping twice is the same as
      stripping once. */
  lemma StripIdempotent(s: String)
    ensures Trimmed(s) ==> Strip(s) == s
    ensures Strip(Strip(s)) == Strip(s)
  {
    var r := Strip(s);
    StripUnique(r, 0, |r|);
    if Trimmed(s) {
      StripUnique(s, 0, |s|);
    }
  }
}

/**
 * The JavaScript string built-ins the CLI relies on, over `seq<char>`:
 * literal search, `startsWith`, `replace` with a string pattern (first occurrence),
 * `replace` with a global regular expression that matches a fixed literal (every
 * occurrence, scanning left to right without overlap), and ASCII case mapping.
 */
module JsStrings {

  import opened Wrappers

  predicate StartsWith(s: string, p: string) {
    |p| <= |s| && s[..|p|] == p
  }

  /** `p` occurs in `s` starting at index `i`. */
  predicate OccursAt(s: string, p: string, i: int) {
    0 <= i && i + |p| <= |s| && s[i..i + |p|] == p
  }

  /** `s` holds no occurrence of `p`. */
  predicate Free(s: string, p: string) {
    forall i | 0 <= i <= |s| - |p| :: !OccursAt(s, p, i)
  }

  /** An occurrence away from the front of `s` is an occurrence in its tail, one index earlier. */
  lemma OccursShift(s: string, p: string, i: int)
    requires |s| >= 1 && i >= 1
    ensures OccursAt(s, p, i) <==> OccursAt(s[1..], p, i - 1)
  {
    if i + |p| <= |s| {
      var a := s[i..i + |p|];
      var b := s[1..][i - 1..i - 1 + |p|];
      forall k | 0 <= k < |p| ensures a[k] == b[k] {
        assert a[k] == s[i + k];
      }
      assert a == b;
    }
  }

  /** `s` is free of `p` when `p` is not at its front and its tail is free of `p`. */
  lemma FreeTail(s: string, p: string)
    requires |s| >= 1
    ensures Free(s, p) <==> !OccursAt(s, p, 0) && Free(s[1..], p)
  {
    forall i | 1 <= i <= |s| - |p| {
      OccursShift(s, p, i);
    }
    forall i | 0 <= i <= |s[1..]| - |p| ensures OccursAt(s, p, i + 1) <==> OccursAt(s[1..], p, i) {
      OccursShift(s, p, i + 1);
    }
  }

  /** `s.indexOf(p)`: the first index at which `p` occurs, if any. */
  function IndexOf(s: string, p: string): (r: Option<nat>)
    ensures r.Some? ==> OccursAt(s, p, r.value) && forall j :: 0 <= j < r.value ==> !OccursAt(s, p, j)
    ensures r.None? <==> Free(s, p)
    decreases |s|
  {
    if |s| < |p| then None
    else if s[..|p|] == p then Some(0)
    else
      var r := IndexOf(s[1..], p);
      FreeTail(s, p);
      if r.None? then None
      else
        assert forall j :: 1 <= j <= r.value + 1 ==> (OccursAt(s, p, j) <==> OccursAt(s[1..], p, j - 1)) by {
          forall j | 1 <= j <= r.value + 1 {
            OccursShift(s, p, j);
          }
        }
        Some(r.value + 1)
  }

  /** `s.replace(p, r)` with a string pattern: only the first occurrence is replaced. */
  function ReplaceFirst(s: string, p: string, r: string): string {
    match IndexOf(s, p)
    case None => s
    case Some(i) => s[..i] + r + s[i + |p|..]
  }

  /**
   * `s.replace(new RegExp(p, 'g'), r)` for a pattern `p` without regular-expression
   * metacharacters and a replacement `r` without `$`: every occurrence, left to right.
   */
  function ReplaceAll(s: string, p: string, r: string): string
    requires |p| > 0
    decreases |s|
  {
    if |s| < |p| then s
    else if s[..|p|] == p then r + ReplaceAll(s[|p|..], p, r)
    else [s[0]] + ReplaceAll(s[1..], p, r)
  }

  /**
   * The stretches of `s` between the occurrences that `ReplaceAll` replaces:
   * the pieces `s.split(p)` would give.
   */
  function Pieces(s: string, p: string): (ps: seq<string>)
    requires |p| > 0
    ensures |ps| >= 1 && ps[0] <= s
    decreases |s|
  {
    if |s| < |p| then [s]
    else if s[..|p|] == p then [""] + Pieces(s[|p|..], p)
    else
      var rest := Pieces(s[1..], p);
      [[s[0]] + rest[0]] + rest[1..]
  }

  /** `ps.join(sep)` */
  function Join(ps: seq<string>, sep: string): string
    requires |ps| >= 1
    decreases |ps|
  {
    if |ps| == 1 then ps[0] else ps[0] + sep + Join(ps[1..], sep)
  }

  lemma JoinConsFirst(c: char, ps: seq<string>, sep: string)
    requires |ps| >= 1
    ensures Join([[c] + ps[0]] + ps[1..], sep) == [c] + Join(ps, sep)
  {
    var qs := [[c] + ps[0]] + ps[1..];
    if |ps| > 1 {
      assert qs[1..] == ps[1..];
    }
  }

  /** No piece contains the pattern. */
  lemma {:induction false} PiecesFree(s: string, p: string)
    requires |p| > 0
    ensures forall k :: 0 <= k < |Pieces(s, p)| ==> Free(Pieces(s, p)[k], p)
    decreases |s|
  {
    var ps := Pieces(s, p);
    if |s| < |p| {
      assert forall i :: !OccursAt(s, p, i);
    } else if s[..|p|] == p {
      PiecesFree(s[|p|..], p);
      assert ps[1..] == Pieces(s[|p|..], p);
      assert forall i :: !OccursAt(ps[0], p, i);
      forall k | 0 <= k < |ps|
        ensures Free(ps[k], p)
      {
        if k > 0 {
          assert ps[k] == ps[1..][k - 1];
        }
      }
    } else {
      var rest := Pieces(s[1..], p);
      PiecesFree(s[1..], p);
      var first := [s[0]] + rest[0];
      assert first <= s;
      assert !OccursAt(first, p, 0);
      assert first[1..] == rest[0];
      assert Free(rest[0], p);
      FreeTail(first, p);
      assert ps == [first] + rest[1..];
      forall k | 0 <= k < |ps|
        ensures Free(ps[k], p)
      {
        if k > 0 {
          assert ps[k] == rest[1..][k - 1] == rest[k];
          assert Free(rest[k], p);
        }
      }
    }
  }

  /** Joining the pieces with `sep` is `ReplaceAll` by `sep`; for `sep == p` it gives `s` back. */
  lemma {:induction false} PiecesJoin(s: string, p: string, sep: string)
    requires |p| > 0
    ensures Join(Pieces(s, p), sep) == ReplaceAll(s, p, sep)
    decreases |s|
  {
    if |s| < |p| {
    } else if s[..|p|] == p {
      var t := s[|p|..];
      PiecesJoin(t, p, sep);
      var ps := Pieces(s, p);
      assert ps == [""] + Pieces(t, p);
      assert ps[1..] == Pieces(t, p);
      assert Join(ps, sep) == "" + sep + Join(Pieces(t, p), sep);
      assert ReplaceAll(s, p, sep) == sep + ReplaceAll(t, p, sep);
    } else {
      var t := s[1..];
      PiecesJoin(t, p, sep);
      var rest := Pieces(t, p);
      assert Pieces(s, p) == [[s[0]] + rest[0]] + rest[1..];
      JoinConsFirst(s[0], rest, sep);
      assert ReplaceAll(s, p, sep) == [s[0]] + ReplaceAll(t, p, sep);
    }
  }

  /**
   * `ReplaceAll` replaces occurrences and nothing else: `s` is its pieces joined by `p`,
   * no piece contains `p`, and the result is the same pieces joined by `r`.
   */
  lemma ReplaceAllIsSplitJoin(s: string, p: string, r: string)
    requires |p| > 0
    ensures var ps := Pieces(s, p);
      (forall k :: 0 <= k < |ps| ==> Free(ps[k], p)) &&
      Join(ps, p) == s &&
      Join(ps, r) == ReplaceAll(s, p, r)
  {
    PiecesFree(s, p);
    PiecesJoin(s, p, p);
    PiecesJoin(s, p, r);
    ReplaceAllSelf(s, p);
  }

  /** Replacing a pattern by itself changes nothing. */
  lemma {:induction false} ReplaceAllSelf(s: string, p: string)
    requires |p| > 0
    ensures ReplaceAll(s, p, p) == s
    decreases |s|
  {
    if |s| < |p| {
    } else if s[..|p|] == p {
      ReplaceAllSelf(s[|p|..], p);
      assert s == s[..|p|] + s[|p|..];
    } else {
      ReplaceAllSelf(s[1..], p);
      assert s == [s[0]] + s[1..];
    }
  }

  /** A string without the pattern passes through `ReplaceAll` unchanged. */
  lemma {:induction false} ReplaceAllFree(s: string, p: string, r: string)
    requires |p| > 0
    requires Free(s, p)
    ensures ReplaceAll(s, p, r) == s
    decreases |s|
  {
    if |s| >= |p| {
      FreeTail(s, p);
      ReplaceAllFree(s[1..], p, r);
      assert s == [s[0]] + s[1..];
    }
  }

  /** An occurrence that ends within the first `n` characters is an occurrence in `s[..n]`. */
  lemma OccursInPrefix(s: string, p: string, n: nat, j: nat)
    requires n <= |s| && j + |p| <= n
    ensures OccursAt(s[..n], p, j) <==> OccursAt(s, p, j)
  {
    assert s[..n][j..j + |p|] == s[j..j + |p|];
  }

  /** If `p` occurs in `s`, `ReplaceFirst` swaps its first occurrence for `r`; otherwise it changes nothing. */
  lemma ReplaceFirstSpec(s: string, p: string, r: string)
    requires |p| > 0
    ensures Free(s, p) ==> ReplaceFirst(s, p, r) == s
    ensures !Free(s, p) ==> exists a, b ::
      s == a + p + b && Free(a + p[..|p| - 1], p) && ReplaceFirst(s, p, r) == a + r + b
  {
    if !Free(s, p) {
      var i := IndexOf(s, p).value;
      var a, b := s[..i], s[i + |p|..];
      assert s[i..i + |p|] == p;
      assert s == a + p + b;
      var t := a + p[..|p| - 1];
      assert t == s[..i + |p| - 1];
      forall j | 0 <= j <= |t| - |p|
        ensures !OccursAt(t, p, j)
      {
        OccursInPrefix(s, p, i + |p| - 1, j);
      }
      assert ReplaceFirst(s, p, r) == a + r + b;
    }
  }

  /** A text that starts with `p` has its leading `p` replaced. */
  lemma ReplaceFirstPrefix(p: string, r: string, t: string)
    requires |p| > 0
    ensures ReplaceFirst(p + t, p, r) == r + t
  {
    var s := p + t;
    assert s[..|p|] == p;
    assert s[|p|..] == t;
  }

  // ASCII case mapping (`toUpperCase` / `toLowerCase` restricted to ASCII letters).

  predicate IsUpper(c: char) { 'A' <= c <= 'Z' }

  predicate IsLower(c: char) { 'a' <= c <= 'z' }

  function ToLowerChar(c: char): (d: char)
    ensures !IsUpper(d)
    ensures IsUpper(c) ==> IsLower(d)
    ensures !IsUpper(c) ==> d == c
  {
    if IsUpper(c) then (c as int + 32) as char else c
  }

  function ToUpperChar(c: char): (d: char)
    ensures !IsLower(d)
    ensures IsLower(c) ==> IsUpper(d)
    ensures !IsLower(c) ==> d == c
  {
    if IsLower(c) then (c as int - 32) as char else c
  }

  function ToLowerCase(s: string): (r: string)
    ensures |r| == |s|
    ensures forall i :: 0 <= i < |s| ==> r[i] == ToLowerChar(s[i])
  {
    if s == [] then [] else [ToLowerChar(s[0])] + ToLowerCase(s[1..])
  }
}

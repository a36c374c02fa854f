/**
 * The Python string and list built-ins that vote_crawler.py relies on, written out:
 * `sub in s` on strings, `s.split(sep)`, `s.endswith(suffix)`, `s.replace(a, b)` for
 * one-character arguments and `l.index(x)` on lists, together with `Join`, the
 * separator-joined fields that `rowtemplate.format` produces.
 */
module PyText {
  import opened Wrappers

  /** `sub` occurs in `s` starting at index `i`. */
  ghost predicate OccursAt(s: string, sub: string, i: int)
  {
    0 <= i && i + |sub| <= |s| && s[i..i + |sub|] == sub
  }

  /** The first index at or after `start` at which `sub` occurs in `s`. */
  function FindFrom(s: string, sub: string, start: nat): (r: Option<nat>)
    requires start <= |s|
    ensures r.Some? ==> start <= r.value && OccursAt(s, sub, r.value)
    ensures r.Some? ==> forall j :: start <= j < r.value ==> !OccursAt(s, sub, j)
    ensures r.None? ==> forall j :: start <= j ==> !OccursAt(s, sub, j)
    decreases |s| - start
  {
    if |s| < start + |sub| then None
    else if s[start..start + |sub|] == sub then Some(start)
    else FindFrom(s, sub, start + 1)
  }

  /** The first index at which `sub` occurs in `s` (Python's `s.find(sub)`, with `None` for -1). */
  function Find(s: string, sub: string): (r: Option<nat>)
    ensures r.Some? ==> OccursAt(s, sub, r.value)
    ensures r.Some? ==> forall j :: 0 <= j < r.value ==> !OccursAt(s, sub, j)
    ensures r.None? ==> forall j :: !OccursAt(s, sub, j)
  {
    FindFrom(s, sub, 0)
  }

  /** For a one-character `sub`, an occurrence at `j` is that character at `j`. */
  lemma OccursAtChar(s: string, c: char, j: int)
    requires 0 <= j < |s|
    ensures OccursAt(s, [c], j) <==> s[j] == c
  {
    assert s[j..j + 1] == [s[j]];
  }

  /** An occurrence with none before it is what `Find` returns. */
  lemma FindIs(s: string, sub: string, i: nat)
    requires OccursAt(s, sub, i)
    requires forall j :: 0 <= j < i ==> !OccursAt(s, sub, j)
    ensures Find(s, sub) == Some(i)
  {
    var r := Find(s, sub);
    assert r.Some?;
    assert !(r.value < i) && !(i < r.value);
  }

  /** For a one-character `sub`, `Find` returns the first position of that character. */
  lemma FindChar(s: string, c: char, i: nat)
    requires i < |s| && s[i] == c
    requires forall j :: 0 <= j < i ==> s[j] != c
    ensures Find(s, [c]) == Some(i)
  {
    OccursAtChar(s, c, i);
    forall j | 0 <= j < i
      ensures !OccursAt(s, [c], j)
    {
      OccursAtChar(s, c, j);
    }
    FindIs(s, [c], i);
  }

  /** Python's `sub in s` on strings: `sub` occurs somewhere in `s` (the empty string occurs everywhere). */
  predicate Contains(s: string, sub: string): (r: bool)
    ensures r <==> exists i :: OccursAt(s, sub, i)
  {
    Find(s, sub).Some?
  }

  /** For a one-character `sub`, containment is membership of that character. */
  lemma {:induction false} ContainsChar(s: string, c: char)
    ensures Contains(s, [c]) <==> c in s
  {
    if c in s {
      var i :| 0 <= i < |s| && s[i] == c;
      assert s[i..i + 1] == [c];
      assert OccursAt(s, [c], i);
    }
    if Contains(s, [c]) {
      var i := Find(s, [c]).value;
      assert s[i..i + 1] == [c];
      assert s[i] == c;
    }
  }

  /** An occurrence inside a prefix of `s` is an occurrence in `s`. */
  lemma OccursInPrefix(s: string, sub: string, n: nat, j: int)
    requires n <= |s|
    requires OccursAt(s[..n], sub, j)
    ensures OccursAt(s, sub, j)
  {
    assert s[..n][j..j + |sub|] == s[j..j + |sub|];
  }

  /**
   * The parts with `sep` between neighbours, as the `,`-separated fields of `rowtemplate.format`:
   * empty for no parts, and otherwise no shorter than the first part.
   */
  function Join(parts: seq<string>, sep: string): (r: string)
    ensures |parts| == 0 ==> r == ""
    ensures |parts| >= 1 ==> |parts[0]| <= |r|
    decreases |parts|
  {
    if |parts| == 0 then ""
    else if |parts| == 1 then parts[0]
    else parts[0] + sep + Join(parts[1..], sep)
  }

  /** Python's `s.split(sep)` for a non-empty separator: cut at every occurrence, left to right. */
  function Split(s: string, sep: string): (parts: seq<string>)
    requires |sep| > 0
    ensures |parts| >= 1
    decreases |s|
  {
    match Find(s, sep)
    case None => [s]
    case Some(i) => [s[..i]] + Split(s[i + |sep|..], sep)
  }

  /** Joining a first piece onto a non-empty rest puts one separator between them. */
  lemma JoinCons(head: string, tail: seq<string>, sep: string)
    requires |tail| >= 1
    ensures Join([head] + tail, sep) == head + sep + Join(tail, sep)
  {
    assert ([head] + tail)[1..] == tail;
  }

  /** A string is what precedes an occurrence, the occurrence, and what follows it. */
  lemma CutAt(s: string, sep: string, i: int)
    requires OccursAt(s, sep, i)
    ensures s == s[..i] + sep + s[i + |sep|..]
  {
    assert s == s[..i] + s[i..i + |sep|] + s[i + |sep|..];
  }

  /** Splitting and joining with the same separator gives back the string. */
  lemma {:induction false} SplitJoin(s: string, sep: string)
    requires |sep| > 0
    ensures Join(Split(s, sep), sep) == s
    decreases |s|
  {
    var f := Find(s, sep);
    if f.Some? {
      var i := f.value;
      var rest := s[i + |sep|..];
      SplitJoin(rest, sep);
      JoinCons(s[..i], Split(rest, sep), sep);
      CutAt(s, sep, i);
    }
  }

  /** No piece of a split contains the separator. */
  lemma {:induction false} SplitPiecesFree(s: string, sep: string)
    requires |sep| > 0
    ensures forall k :: 0 <= k < |Split(s, sep)| ==> !Contains(Split(s, sep)[k], sep)
    decreases |s|
  {
    match Find(s, sep)
    case None =>
    case Some(i) =>
      var rest := s[i + |sep|..];
      SplitPiecesFree(rest, sep);
      if Contains(s[..i], sep) {
        var j := Find(s[..i], sep).value;
        OccursInPrefix(s, sep, i, j);
        assert false;
      }
      assert Split(s, sep)[1..] == Split(rest, sep);
  }

  /** Every character of a piece of a split is a character of the string. */
  lemma {:induction false} SplitPieceChars(s: string, sep: string, k: nat, c: char)
    requires |sep| > 0 && k < |Split(s, sep)|
    requires c in Split(s, sep)[k]
    ensures c in s
    decreases |s|
  {
    match Find(s, sep)
    case None =>
    case Some(i) =>
      if k == 0 {
        var j :| 0 <= j < i && s[..i][j] == c;
        assert s[j] == c;
      } else {
        var rest := s[i + |sep|..];
        assert Split(s, sep)[k] == Split(rest, sep)[k - 1];
        SplitPieceChars(rest, sep, k - 1, c);
        var j :| 0 <= j < |rest| && rest[j] == c;
        assert s[i + |sep| + j] == c;
      }
  }

  /** A string splits into more than one piece exactly when it contains the separator. */
  lemma SplitInTwoIff(s: string, sep: string)
    requires |sep| > 0
    ensures |Split(s, sep)| >= 2 <==> Contains(s, sep)
  {
  }

  /**
   * The first piece of a split is the text before the first occurrence of `sep`, or all of `s`
   * when there is none: no occurrence starts inside it.
   */
  lemma SplitHead(s: string, sep: string)
    requires |sep| > 0
    ensures var h := Split(s, sep)[0];
      && h <= s
      && !Contains(h, sep)
      && (forall j :: 0 <= j < |h| ==> !OccursAt(s, sep, j))
      && (|h| == |s| || OccursAt(s, sep, |h|))
  {
    SplitPiecesFree(s, sep);
  }

  /** The second piece of a split is the first piece of what follows the first occurrence. */
  lemma SplitSecond(s: string, sep: string)
    requires |sep| > 0
    requires |Split(s, sep)| >= 2
    ensures Find(s, sep).Some?
    ensures Split(s, sep)[1] == Split(s[Find(s, sep).value + |sep|..], sep)[0]
  {
  }

  /**
   * The last piece of a split is a suffix of `s` that is all of `s` or directly follows an
   * occurrence of `sep` (by SplitPiecesFree it holds no occurrence itself).
   */
  lemma {:induction false} SplitLast(s: string, sep: string)
    requires |sep| > 0
    ensures var parts := Split(s, sep); var t := parts[|parts| - 1];
      && |t| <= |s| && s[|s| - |t|..] == t
      && (|t| == |s| || OccursAt(s, sep, |s| - |t| - |sep|))
    decreases |s|
  {
    match Find(s, sep)
    case None =>
      assert Split(s, sep) == [s];
    case Some(i) =>
      var rest := s[i + |sep|..];
      SplitLast(rest, sep);
      var tail := Split(rest, sep);
      var parts := Split(s, sep);
      assert parts == [s[..i]] + tail;
      LastOfCons(s[..i], tail);
      LastPieceAfter(s, sep, i, tail[|tail| - 1]);
  }

  /** The last element of a sequence with an element in front is the last element of the rest. */
  lemma LastOfCons(x: string, tail: seq<string>)
    requires |tail| >= 1
    ensures ([x] + tail)[|tail|] == tail[|tail| - 1]
  {
  }

  /**
   * A suffix of what follows an occurrence at `i` that is all of it or follows a later
   * occurrence is a suffix of `s` that follows an occurrence.
   */
  lemma LastPieceAfter(s: string, sep: string, i: nat, t: string)
    requires OccursAt(s, sep, i)
    requires var rest := s[i + |sep|..];
      && |t| <= |rest| && rest[|rest| - |t|..] == t
      && (|t| == |rest| || OccursAt(rest, sep, |rest| - |t| - |sep|))
    ensures |t| <= |s| && s[|s| - |t|..] == t
    ensures |t| == |s| || OccursAt(s, sep, |s| - |t| - |sep|)
  {
    var k := i + |sep|;
    var rest := s[k..];
    DropOfDrop(s, k, |rest| - |t|, |s| - |t|);
    var m := |s| - |t| - |sep|;
    if |t| < |rest| {
      var j := |rest| - |t| - |sep|;
      SliceOfDrop(s, k, j, j + |sep|, m, m + |sep|);
    } else {
      assert m == i;
    }
  }

  /** Dropping `k` and then `a` elements drops `n == k + a` of them. */
  lemma DropOfDrop(s: string, k: nat, a: nat, n: nat)
    requires k + a <= |s| && n == k + a
    ensures s[k..][a..] == s[n..]
  {
  }

  /** A slice of `s[k..]` is the slice of `s` shifted by `k`. */
  lemma SliceOfDrop(s: string, k: nat, a: nat, b: nat, c: nat, d: nat)
    requires a <= b && k + b <= |s| && c == k + a && d == k + b
    ensures s[k..][a..b] == s[c..d]
  {
  }

  /**
   * For a one-character separator, joining pieces that do not contain it and splitting again
   * gives back the pieces.
   */
  lemma {:induction false} JoinSplit(parts: seq<string>, c: char)
    requires |parts| >= 1
    requires forall k :: 0 <= k < |parts| ==> c !in parts[k]
    ensures Split(Join(parts, [c]), [c]) == parts
    decreases |parts|
  {
    var s := Join(parts, [c]);
    ContainsChar(parts[0], c);
    if |parts| == 1 {
      assert Find(s, [c]).None?;
    } else {
      var rest := Join(parts[1..], [c]);
      JoinSplit(parts[1..], c);
      assert s == parts[0] + [c] + rest;
      var i := |parts[0]|;
      assert s[i..i + 1] == [c];
      assert OccursAt(s, [c], i);
      forall j | 0 <= j < i
        ensures !OccursAt(s, [c], j)
      {
        assert s[j] == parts[0][j];
        assert s[j..j + 1] == [s[j]];
      }
      assert Find(s, [c]) == Some(i);
      assert s[..i] == parts[0];
      assert s[i + 1..] == rest;
    }
  }

  /** Python's `s.endswith(suffix)`. */
  predicate EndsWith(s: string, suffix: string): (r: bool)
    ensures r <==> |suffix| <= |s| && forall k :: 0 <= k < |suffix| ==> s[|s| - |suffix| + k] == suffix[k]
  {
    |suffix| <= |s| && s[|s| - |suffix|..] == suffix
  }

  /** Python's `s.replace(from, to)` where `from` and `to` are single characters. */
  function ReplaceChar(s: string, from: char, to: char): (r: string)
    ensures |r| == |s|
    ensures forall i :: 0 <= i < |s| ==> r[i] == if s[i] == from then to else s[i]
    decreases |s|
  {
    if s == [] then ""
    else [if s[0] == from then to else s[0]] + ReplaceChar(s[1..], from, to)
  }

  /** After a replacement, the replaced character is gone (unless it is its own replacement). */
  lemma ReplaceCharRemoves(s: string, from: char, to: char)
    requires from != to
    ensures from !in ReplaceChar(s, from, to)
  {
  }

  /** Replacing a character that does not occur changes nothing. */
  lemma ReplaceCharAbsent(s: string, from: char, to: char)
    requires from !in s
    ensures ReplaceChar(s, from, to) == s
  {
  }

  /** Replacing twice is replacing once. */
  lemma ReplaceCharIdempotent(s: string, from: char, to: char)
    ensures ReplaceChar(ReplaceChar(s, from, to), from, to) == ReplaceChar(s, from, to)
  {
  }

  /** Python's `l.index(x)`: the first position of `x` in a list that holds it. */
  function IndexOf(l: seq<string>, x: string): (r: nat)
    requires x in l
    ensures r < |l| && l[r] == x
    ensures forall j :: 0 <= j < r ==> l[j] != x
    decreases |l|
  {
    if l[0] == x then 0 else 1 + IndexOf(l[1..], x)
  }
}

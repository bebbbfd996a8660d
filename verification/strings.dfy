/**
 * The PHP string primitives the grid and the search filter rely on:
 * `implode`, `explode`, `strpos` and `strtolower`, over `seq<char>`.
 */
module Strings {
  import opened Outcomes

  /** `implode(sep, parts)`: the parts in order, with `sep` between neighbours. */
  function Join(sep: string, parts: seq<string>): string
  {
    if |parts| == 0 then ""
    else if |parts| == 1 then parts[0]
    else parts[0] + sep + Join(sep, parts[1..])
  }

  /** `sep` occurs in `s` starting at index `i`. */
  predicate OccursAt(s: string, sep: string, i: nat)
  {
    i + |sep| <= |s| && s[i..i + |sep|] == sep
  }

  /** `p` is a prefix of `s`. */
  predicate StartsWith(s: string, p: string)
  {
    |p| <= |s| && s[..|p|] == p
  }

  /** `s` holds no occurrence of `sep` at all. */
  predicate Free(s: string, sep: string)
  {
    forall j :: 0 <= j < |s| ==> !OccursAt(s, sep, j)
  }

  /** First occurrence of `sep` in `s` at or after index `k`. */
  function IndexOfFrom(s: string, sep: string, k: nat): (r: Option<nat>)
    requires |sep| > 0
    requires k <= |s|
    ensures r.Some? ==> k <= r.value && OccursAt(s, sep, r.value)
    ensures forall j :: k <= j < (if r.Some? then r.value else |s|) ==> !OccursAt(s, sep, j)
    decreases |s| - k
  {
    if k + |sep| > |s| then None
    else if s[k..k + |sep|] == sep then Some(k)
    else IndexOfFrom(s, sep, k + 1)
  }

  /** `strpos(s, sep)`: the first occurrence of `sep` in `s`, or `None` (PHP `false`). */
  function IndexOf(s: string, sep: string): (r: Option<nat>)
    requires |sep| > 0
    ensures r.Some? ==> OccursAt(s, sep, r.value)
    ensures r.Some? ==> forall j :: 0 <= j < r.value ==> !OccursAt(s, sep, j)
    ensures r.None? <==> Free(s, sep)
  {
    IndexOfFrom(s, sep, 0)
  }

  /**
   * `explode(sep, s)`: the pieces of `s` between occurrences of `sep`, scanning
   * left to right. There is always at least one piece and none contains `sep`.
   */
  function Split(s: string, sep: string): (parts: seq<string>)
    requires |sep| > 0
    ensures |parts| >= 1
    ensures forall i :: 0 <= i < |parts| ==> Free(parts[i], sep)
    decreases |s|
  {
    match IndexOf(s, sep)
    case None => [s]
    case Some(i) =>
      PrefixBeforeFirstIsFree(s, sep, i);
      [s[..i]] + Split(s[i + |sep|..], sep)
  }

  /** The text before the first occurrence of `sep` holds no occurrence of it. */
  lemma PrefixBeforeFirstIsFree(s: string, sep: string, i: nat)
    requires |sep| > 0
    requires IndexOf(s, sep) == Some(i)
    ensures Free(s[..i], sep)
  {
    forall j | 0 <= j < i
      ensures !OccursAt(s[..i], sep, j)
    {
      assert !OccursAt(s, sep, j);
      if j + |sep| <= i {
        assert s[..i][j..j + |sep|] == s[j..j + |sep|];
      }
    }
  }

  /** `implode` of a list of two or more parts, one step unfolded. */
  lemma JoinCons(sep: string, p: string, rest: seq<string>)
    requires |rest| >= 1
    ensures Join(sep, [p] + rest) == p + sep + Join(sep, rest)
  {
    assert ([p] + rest)[1..] == rest;
  }

  /** `explode` of text that contains the separator, one step unfolded. */
  lemma SplitStep(s: string, sep: string, i: nat)
    requires |sep| > 0
    requires IndexOf(s, sep) == Some(i)
    ensures i + |sep| <= |s|
    ensures Split(s, sep) == [s[..i]] + Split(s[i + |sep|..], sep)
  {
    SplitUnfold(s, sep);
  }

  /** One unfolding of `explode` at the first occurrence of the separator. */
  lemma SplitUnfold(s: string, sep: string)
    requires |sep| > 0
    requires IndexOf(s, sep).Some?
    ensures IndexOf(s, sep).value + |sep| <= |s|
    ensures Split(s, sep) == [s[..IndexOf(s, sep).value]] + Split(s[IndexOf(s, sep).value + |sep|..], sep)
  {
  }

  /** Text with `sep` at `i` is the part before, `sep`, and the part after. */
  lemma SplitAround(s: string, sep: string, i: nat)
    requires OccursAt(s, sep, i)
    ensures s == s[..i] + sep + s[i + |sep|..]
  {
    assert s[..i] + s[i..i + |sep|] + s[i + |sep|..] == s;
  }

  /** Joining the pieces of `explode` with the same separator gives back the input. */
  lemma {:induction false} JoinSplit(s: string, sep: string)
    requires |sep| > 0
    ensures Join(sep, Split(s, sep)) == s
    decreases |s|
  {
    var r := IndexOf(s, sep);
    if r.None? {
      assert Split(s, sep) == [s];
    } else {
      var i := r.value;
      var rest := s[i + |sep|..];
      SplitStep(s, sep, i);
      JoinSplit(rest, sep);
      JoinCons(sep, s[..i], Split(rest, sep));
      calc {
        Join(sep, Split(s, sep));
        Join(sep, [s[..i]] + Split(rest, sep));
        s[..i] + sep + Join(sep, Split(rest, sep));
        s[..i] + sep + rest;
        { SplitAround(s, sep, i); }
        s;
      }
    }
  }

  /**
   * Conversely, when no piece contains the first character of `sep`, splitting
   * the joined text recovers exactly the pieces, in order.
   */
  lemma {:induction false} SplitJoin(parts: seq<string>, sep: string)
    requires |sep| > 0
    requires |parts| >= 1
    requires forall i :: 0 <= i < |parts| ==> sep[0] !in parts[i]
    ensures Split(Join(sep, parts), sep) == parts
    decreases |parts|
  {
    var s := Join(sep, parts);
    if |parts| == 1 {
      assert s == parts[0];
      NoLeadCharIsFree(s, sep);
      assert IndexOf(s, sep).None?;
      assert Split(s, sep) == [s];
    } else {
      var p := parts[0];
      var rest := Join(sep, parts[1..]);
      JoinCons(sep, p, parts[1..]);
      assert parts == [p] + parts[1..];
      assert s == p + sep + rest;
      assert s[|p|..|p| + |sep|] == sep;
      assert OccursAt(s, sep, |p|);
      var r := IndexOf(s, sep);
      assert r.Some?;
      assert s[r.value..r.value + |sep|][0] == s[r.value];
      assert r.value == |p|;
      assert s[|p| + |sep|..] == rest;
      assert s[..|p|] == p;
      SplitJoin(parts[1..], sep);
      SplitStep(s, sep, |p|);
    }
  }

  /** Text without the separator's first character contains no separator. */
  lemma NoLeadCharIsFree(s: string, sep: string)
    requires |sep| > 0
    requires sep[0] !in s
    ensures Free(s, sep)
  {
    forall j | 0 <= j < |s|
      ensures !OccursAt(s, sep, j)
    {
      if j + |sep| <= |s| {
        assert s[j..j + |sep|][0] == s[j];
      }
    }
  }

  /** Number of occurrences of the character `c` in `s`. */
  function Count(s: string, c: char): nat
  {
    if |s| == 0 then 0 else (if s[0] == c then 1 else 0) + Count(s[1..], c)
  }

  lemma {:induction false} CountConcat(a: string, b: string, c: char)
    ensures Count(a + b, c) == Count(a, c) + Count(b, c)
    decreases |a|
  {
    if |a| == 0 {
      assert a + b == b;
    } else {
      assert (a + b)[1..] == a[1..] + b;
      CountConcat(a[1..], b, c);
    }
  }

  lemma {:induction false} CountZero(s: string, c: char)
    requires Free(s, [c])
    ensures Count(s, c) == 0
    decreases |s|
  {
    if |s| > 0 {
      assert s[0..1] == [s[0]];
      assert !OccursAt(s, [c], 0);
      forall j | 0 <= j < |s[1..]|
        ensures !OccursAt(s[1..], [c], j)
      {
        assert s[1..][j..j + 1] == s[j + 1..j + 2];
        assert !OccursAt(s, [c], j + 1);
      }
      CountZero(s[1..], c);
    }
  }

  /** Splitting on a single character yields one piece more than it has occurrences. */
  lemma {:induction false} SplitCount(s: string, c: char)
    ensures |Split(s, [c])| == Count(s, c) + 1
    decreases |s|
  {
    match IndexOf(s, [c])
    case None =>
      CountZero(s, c);
    case Some(i) =>
      var rest := s[i + 1..];
      PrefixBeforeFirstIsFree(s, [c], i);
      CountZero(s[..i], c);
      assert s[i..i + 1] == [c];
      assert s == s[..i] + [c] + rest;
      CountConcat(s[..i] + [c], rest, c);
      CountConcat(s[..i], [c], c);
      assert Count([c], c) == 1;
      SplitCount(rest, c);
  }

  /** `strtolower` on one byte in the C locale: only ASCII `A`-`Z` change. */
  function LowerChar(c: char): char
  {
    if 'A' <= c <= 'Z' then (c as int + 32) as char else c
  }

  /** `strtolower`: character-wise lower-casing. */
  function Lower(s: string): (r: string)
    ensures |r| == |s|
    ensures forall i :: 0 <= i < |s| && !('A' <= s[i] <= 'Z') ==> r[i] == s[i]
    ensures forall i :: 0 <= i < |s| && 'A' <= s[i] <= 'Z' ==> 'a' <= r[i] <= 'z' && r[i] as int == s[i] as int + 32
  {
    seq(|s|, i requires 0 <= i < |s| => LowerChar(s[i]))
  }

  /** Lower-casing is idempotent and leaves no ASCII capital behind. */
  lemma LowerIdempotent(s: string)
    ensures Lower(Lower(s)) == Lower(s)
    ensures forall i :: 0 <= i < |s| ==> !('A' <= Lower(s)[i] <= 'Z')
  {
  }
}

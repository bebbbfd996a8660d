/**
 * The pure parts of `GridField_Action`: `nameEncode` and
 * `getNameFromParent`.
 *
 * PHP strings are byte strings and `preg_replace_callback('/[^\w]/', ...)`
 * works byte by byte, so the encoder is modelled over bytes. Without the `u`
 * modifier and in the C locale, `\w` is the ASCII letters, digits and `_`.
 */
module GridFieldAction {
  import opened Strings

  type Byte = b: int | 0 <= b < 256

  /** `\w` in PCRE's default (C locale) tables. */
  predicate IsWordByte(b: Byte)
  {
    ('0' as int <= b <= '9' as int) || ('A' as int <= b <= 'Z' as int) ||
    ('a' as int <= b <= 'z' as int) || b == '_' as int
  }

  const Percent: Byte := '%' as int

  /** A lower-case hexadecimal digit, as `dechex` writes it. */
  predicate IsHexDigit(b: Byte)
  {
    ('0' as int <= b <= '9' as int) || ('a' as int <= b <= 'f' as int)
  }

  function HexDigit(d: nat): (b: Byte)
    requires d < 16
    ensures IsHexDigit(b) && IsWordByte(b)
  {
    if d < 10 then '0' as int + d else 'a' as int + (d - 10)
  }

  function DigitValue(b: Byte): (d: nat)
    requires IsHexDigit(b)
    ensures d < 16 && HexDigit(d) == b
  {
    if b <= '9' as int then b - '0' as int else b - 'a' as int + 10
  }

  /** `dechex(n)`: lower-case hexadecimal, no padding, "0" for zero. */
  function Hex(n: nat): (h: seq<Byte>)
    ensures |h| >= 1
    ensures forall i :: 0 <= i < |h| ==> IsHexDigit(h[i])
    decreases n
  {
    if n < 16 then [HexDigit(n)] else Hex(n / 16) + [HexDigit(n % 16)]
  }

  /** The number a string of hexadecimal digits denotes. */
  function HexValue(h: seq<Byte>): nat
    requires forall i :: 0 <= i < |h| ==> IsHexDigit(h[i])
  {
    if |h| == 0 then 0 else HexValue(h[..|h| - 1]) * 16 + DigitValue(h[|h| - 1])
  }

  /**
   * `dechex` is exact and minimal: its digits denote `n`, there is no leading
   * zero except for zero itself, and a byte takes one or two digits.
   */
  lemma {:induction false} HexRoundTrip(n: nat)
    ensures HexValue(Hex(n)) == n
    ensures Hex(n)[0] != '0' as int || n == 0
    ensures n < 16 <==> |Hex(n)| == 1
    ensures n < 256 ==> |Hex(n)| <= 2
    decreases n
  {
    if n >= 16 {
      HexRoundTrip(n / 16);
      var h := Hex(n);
      assert h[..|h| - 1] == Hex(n / 16);
      assert h[0] == Hex(n / 16)[0];
    }
  }

  /** `_nameEncode` applied where the pattern matches, the byte itself elsewhere. */
  function EncodeByte(b: Byte): seq<Byte>
  {
    if IsWordByte(b) then [b] else [Percent] + Hex(b)
  }

  /**
   * `nameEncode`: every non-word byte becomes `%` and its unpadded hex code;
   * the output holds nothing but word bytes and `%`, and never shrinks.
   */
  function NameEncode(s: seq<Byte>): (r: seq<Byte>)
    ensures |r| >= |s|
    ensures forall i :: 0 <= i < |r| ==> IsWordByte(r[i]) || r[i] == Percent
    decreases |s|
  {
    if |s| == 0 then [] else EncodeByte(s[0]) + NameEncode(s[1..])
  }

  /** The encoder works byte by byte: encoding distributes over concatenation. */
  lemma {:induction false} NameEncodeConcat(a: seq<Byte>, b: seq<Byte>)
    ensures NameEncode(a + b) == NameEncode(a) + NameEncode(b)
    decreases |a|
  {
    if |a| == 0 {
      assert a + b == b;
    } else {
      assert (a + b)[1..] == a[1..] + b;
      NameEncodeConcat(a[1..], b);
    }
  }

  /** One escaped byte reads back as `%` followed by the hex of its code. */
  lemma EscapeReadsBack(b: Byte)
    requires !IsWordByte(b)
    ensures EncodeByte(b)[0] == Percent
    ensures HexValue(EncodeByte(b)[1..]) == b
    ensures 2 <= |EncodeByte(b)| <= 3
  {
    HexRoundTrip(b);
    assert EncodeByte(b)[1..] == Hex(b);
  }

  /** The encoder changes a name exactly when the name holds a non-word byte. */
  lemma {:induction false} NameEncodeFixesWordNames(s: seq<Byte>)
    ensures NameEncode(s) == s <==> forall i :: 0 <= i < |s| ==> IsWordByte(s[i])
    decreases |s|
  {
    if |s| > 0 {
      NameEncodeFixesWordNames(s[1..]);
      if IsWordByte(s[0]) {
        assert NameEncode(s) == [s[0]] + NameEncode(s[1..]);
        assert s == [s[0]] + s[1..];
        assert forall i :: 1 <= i < |s| ==> s[i] == s[1..][i - 1];
      } else {
        assert |NameEncode(s)| > |s|;
      }
    }
  }

  /**
   * Because the hex is not padded, the encoding is not injective: byte 1
   * followed by "1" and byte 17 both encode to "%11". No decoder can exist.
   */
  lemma NameEncodeNotInjective()
    ensures exists a: seq<Byte>, b: seq<Byte> :: a != b && NameEncode(a) == NameEncode(b)
  {
    var a: seq<Byte> := [1, '1' as int];
    var b: seq<Byte> := [17];
    assert Hex(1) == ['1' as int];
    assert Hex(17) == ['1' as int, '1' as int];
    assert a[1..] == ['1' as int];
    assert NameEncode(a[1..]) == ['1' as int];
    assert NameEncode(a) == [Percent, '1' as int, '1' as int];
    assert NameEncode(b) == [Percent, '1' as int, '1' as int];
  }

  /* ----- getNameFromParent ----- */

  /** What `getForm()` returns at each step: a Form, or another named field. */
  datatype Parent = FormParent | FieldParent(name: string)

  /**
   * The names the `do ... while` collects, innermost first: the grid's own
   * name, then each parent's up to (not including) the first Form or the end
   * of the chain (a null parent).
   */
  function ChainNames(gridName: string, parents: seq<Parent>): (names: seq<string>)
    ensures |names| >= 1 && names[0] == gridName
    ensures |names| <= |parents| + 1
    decreases |parents|
  {
    if |parents| == 0 || parents[0].FormParent? then [gridName]
    else [gridName] + ChainNames(parents[0].name, parents[1..])
  }

  function Reverse(xs: seq<string>): (r: seq<string>)
    ensures |r| == |xs|
    ensures forall i :: 0 <= i < |xs| ==> r[i] == xs[|xs| - 1 - i]
  {
    if |xs| == 0 then [] else Reverse(xs[1..]) + [xs[0]]
  }

  /**
   * `getNameFromParent`: `array_unshift` puts each newer name in front, so the
   * path lists the outermost name first and the grid's name last, joined by
   * dots.
   */
  method NameFromParent(gridName: string, parents: seq<Parent>) returns (path: string)
    ensures path == Join(".", Reverse(ChainNames(gridName, parents)))
  {
    var names := [gridName];
    var k := 0;
    var current := gridName;
    ghost var collected := [gridName];
    while k < |parents| && parents[k].FieldParent?
      invariant 0 <= k <= |parents|
      invariant |collected| == k + 1 && collected == collected[..k] + [current]
      invariant ChainNames(gridName, parents) == collected[..k] + ChainNames(current, parents[k..])
      invariant names == Reverse(collected)
      decreases |parents| - k
    {
      var next := parents[k].name;
      ChainStep(current, parents, k);
      ReverseSnoc(collected, next);
      var grown := collected + [next];
      assert grown[..k + 1] == collected;
      assert grown == grown[..k + 1] + [next];
      collected := grown;
      names := [next] + names;
      current := next;
      k := k + 1;
    }
    ChainEnd(current, parents, k);
    path := Join(".", names);
  }

  /** One more parent field: its name joins the chain after the current one. */
  lemma ChainStep(current: string, parents: seq<Parent>, k: nat)
    requires k < |parents| && parents[k].FieldParent?
    ensures ChainNames(current, parents[k..]) == [current] + ChainNames(parents[k].name, parents[k + 1..])
  {
    assert parents[k..][0] == parents[k];
    assert parents[k..][1..] == parents[k + 1..];
  }

  /** A form or the end of the chain: the current name is the last one. */
  lemma ChainEnd(current: string, parents: seq<Parent>, k: nat)
    requires k <= |parents|
    requires k == |parents| || parents[k].FormParent?
    ensures ChainNames(current, parents[k..]) == [current]
  {
    if k < |parents| {
      assert parents[k..][0] == parents[k];
    }
  }

  /** Putting a name at the end of the list puts it at the front of the reversal. */
  lemma ReverseSnoc(xs: seq<string>, x: string)
    ensures Reverse(xs + [x]) == [x] + Reverse(xs)
  {
    var a := Reverse(xs + [x]);
    var b := [x] + Reverse(xs);
    forall i | 0 <= i < |a|
      ensures a[i] == b[i]
    {
      if i > 0 {
        assert (xs + [x])[|xs| - i] == xs[|xs| - 1 - (i - 1)];
      }
    }
  }

  /**
   * When no name holds a dot, the path splits back into the chain of names,
   * outermost first, with the grid's name last.
   */
  lemma PathSplitsBack(gridName: string, parents: seq<Parent>, path: string)
    requires path == Join(".", Reverse(ChainNames(gridName, parents)))
    requires '.' !in gridName
    requires forall i :: 0 <= i < |parents| && parents[i].FieldParent? ==> '.' !in parents[i].name
    ensures Split(path, ".") == Reverse(ChainNames(gridName, parents))
    ensures Split(path, ".")[|Split(path, ".")| - 1] == gridName
  {
    var names := ChainNames(gridName, parents);
    ChainNamesDotFree(gridName, parents);
    var rev := Reverse(names);
    ReverseKeepsDotFree(names);
    assert "."[0] == '.';
    SplitJoin(rev, ".");
    assert rev[|rev| - 1] == names[0];
  }

  /** Reversing a list of dot-free names keeps every name dot-free. */
  lemma ReverseKeepsDotFree(names: seq<string>)
    requires forall i :: 0 <= i < |names| ==> '.' !in names[i]
    ensures forall i :: 0 <= i < |Reverse(names)| ==> '.' !in Reverse(names)[i]
  {
    var rev := Reverse(names);
    forall i | 0 <= i < |rev|
      ensures '.' !in rev[i]
    {
      assert rev[i] == names[|names| - 1 - i];
    }
  }

  /** Dot-free names collect into a dot-free chain. */
  lemma {:induction false} ChainNamesDotFree(gridName: string, parents: seq<Parent>)
    requires '.' !in gridName
    requires forall i :: 0 <= i < |parents| && parents[i].FieldParent? ==> '.' !in parents[i].name
    ensures forall i :: 0 <= i < |ChainNames(gridName, parents)| ==> '.' !in ChainNames(gridName, parents)[i]
    decreases |parents|
  {
    if |parents| > 0 && parents[0].FieldParent? {
      var rest := parents[1..];
      assert forall i :: 0 <= i < |rest| ==> rest[i] == parents[i + 1];
      ChainNamesDotFree(parents[0].name, rest);
    }
  }
}

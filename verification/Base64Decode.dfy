/** The `atob` polyfill, and the round trip through `btoa`. */
module Base64Decode {
  import opened Wrappers
  import opened Base64

  /** `replace(/=+$/, "")`. */
  function StripPad(s: JsString): JsString {
    if s != [] && s[|s| - 1] == PAD then StripPad(s[..|s| - 1]) else s
  }

  /** Six more bits at the low end of the accumulator. */
  function Widened(bs: bv32, v: bv32): bv32 {
    bs * 64 + v
  }

  /** The accumulated sextets after a character of index `v`. */
  function Accumulate(bs: bv32, bc: nat, v: bv32): bv32 {
    if bc % 4 != 0 then Widened(bs, v) else v
  }

  /** `255 & (bs >> ((-2 * bc) & 6))`, the byte completed by the `bc`-th character. */
  function Completed(bs: bv32, bc: nat): CodeUnit {
    match bc % 4
    case 0 => (255 & bs) as CodeUnit
    case 1 => (255 & (bs >> 6)) as CodeUnit
    case 2 => (255 & (bs >> 4)) as CodeUnit
    case _ => (255 & (bs >> 2)) as CodeUnit
  }

  /** The shift amounts above are those of the source. */
  lemma ShiftSchedule(bc: nat)
    ensures (-2 * bc) % 8 == (match bc % 4 case 0 => 0 case 1 => 6 case 2 => 4 case _ => 2)
  {
    var m := bc / 4;
    assert bc == 4 * m + bc % 4;
    assert -2 * bc == 8 * (-m) - 2 * (bc % 4);
  }

  /** What the `bc`-th accepted character (counting from 0) appends: all but every fourth, a byte. */
  function Emitted(next: bv32, bc: nat): JsString {
    if bc % 4 != 0 then [Completed(next, bc + 1)] else []
  }

  /** The rest of the output, after `bc` accepted characters that left `bs`. */
  function DecodeFrom(s: JsString, bc: nat, bs: bv32): JsString {
    if s == [] then []
    else match IndexOf(s[0])
      case None => DecodeFrom(s[1..], bc, bs)
      case Some(v) =>
        var next := Accumulate(bs, bc, v);
        Emitted(next, bc) + DecodeFrom(s[1..], bc + 1, next)
  }

  function Decode(input: JsString): Result<JsString> {
    var s := StripPad(input);
    if |s| % 4 == 1 then Err else Ok(DecodeFrom(s, 0, 0))
  }

  /** The largest accumulator after `bc` accepted characters, all of index at most 64. */
  function Ceiling(bc: nat): bv32 {
    match bc % 4
    case 1 => 64
    case 2 => 4160
    case 3 => 266304
    case _ => 17043520
  }

  lemma AccumulateBounded(bs: bv32, bc: nat, v: bv32)
    requires v <= 64 && bs <= Ceiling(bc)
    ensures Accumulate(bs, bc, v) <= Ceiling(bc + 1)
  {
    assert (bc + 1) % 4 == (bc % 4 + 1) % 4;
    match bc % 4
    case 0 =>
    case 1 => AfterTwo(bs, v);
    case 2 => AfterThree(bs, v);
    case 3 => AfterFour(bs, v);
  }

  lemma AfterTwo(bs: bv32, v: bv32)
    requires v <= 64 && bs <= 64
    ensures Widened(bs, v) <= 4160
  {
  }

  lemma AfterThree(bs: bv32, v: bv32)
    requires v <= 64 && bs <= 4160
    ensures Widened(bs, v) <= 266304
  {
  }

  lemma AfterFour(bs: bv32, v: bv32)
    requires v <= 64 && bs <= 266304
    ensures Widened(bs, v) <= 17043520
  {
  }

  /** The first `i` characters are consumed; `output` and the rest make up the result. */
  ghost predicate Decoding(str: JsString, i: nat, bc: nat, bs: bv32, output: JsString) {
    i <= |str| && output + DecodeFrom(str[i..], bc, bs) == DecodeFrom(str, 0, 0)
  }

  lemma DecodeStep(str: JsString, i: nat, bc: nat, bs: bv32, output: JsString, v: bv32)
    requires i < |str| && IndexOf(str[i]) == Some(v) && Decoding(str, i, bc, bs, output)
    ensures var next := Accumulate(bs, bc, v); Decoding(str, i + 1, bc + 1, next, output + Emitted(next, bc))
  {
    hide Accumulate, Emitted, IndexOf;
    assert str[i..][0] == str[i] && str[i..][1..] == str[i + 1..];
  }

  lemma DecodeSkips(str: JsString, i: nat, bc: nat, bs: bv32, output: JsString)
    requires i < |str| && IndexOf(str[i]).None? && Decoding(str, i, bc, bs, output)
    ensures Decoding(str, i + 1, bc, bs, output)
  {
    hide Accumulate, Emitted, IndexOf;
    assert str[i..][0] == str[i] && str[i..][1..] == str[i + 1..];
  }

  lemma IndexBounded(c: CodeUnit)
    ensures IndexOf(c).Some? ==> IndexOf(c).value <= 64
  {
  }

  /** Trailing pads dropped, a lone last character refused, and the rest decoded. */
  method Atob(input: JsString) returns (r: Result<JsString>)
    ensures r == Decode(input)
  {
    var str := StripPad(input);
    if |str| % 4 == 1 {
      return Err;
    }
    var output: JsString := [];
    var bc: nat := 0;
    var bs: bv32 := 0;
    var i := 0;
    while i < |str|
      invariant 0 <= i <= |str|
      // The accumulator stays far from the sign bit: no step depends on 32-bit overflow.
      invariant bs <= Ceiling(bc)
      invariant Decoding(str, i, bc, bs, output)
    {
      var buffer := IndexOf(str[i]);
      if buffer.None? {
        DecodeSkips(str, i, bc, bs, output);
      } else {
        IndexBounded(str[i]);
        AccumulateBounded(bs, bc, buffer.value);
        DecodeStep(str, i, bc, bs, output, buffer.value);
        bs := Accumulate(bs, bc, buffer.value);
        output := output + Emitted(bs, bc);
        bc := bc + 1;
      }
      i := i + 1;
    }
    assert DecodeFrom(str[i..], bc, bs) == [] && output + [] == output;
    return Ok(output);
  }

  /** What is left without the pads at the end. */
  lemma {:induction false} StripPads(body: JsString, n: nat)
    requires body == [] || body[|body| - 1] != PAD
    ensures StripPad(body + seq(n, _ => PAD)) == body
  {
    var s := body + seq(n, _ => PAD);
    if n == 0 {
      assert s == body;
    } else {
      assert s[..|s| - 1] == body + seq(n - 1, _ => PAD);
      StripPads(body, n - 1);
    }
  }

  /** Refused exactly if one character more than a multiple of four stands before the pads at the end. */
  lemma RefusesExactly(body: JsString, n: nat)
    requires body == [] || body[|body| - 1] != PAD
    ensures Decode(body + seq(n, _ => PAD)) == Err <==> |body| % 4 == 1
    ensures Decode(body + seq(n, _ => PAD)) == Decode(body)
  {
    StripPads(body, n);
    StripPads(body, 0);
    assert body + seq(0, _ => PAD) == body;
  }

  // ---- The round trip

  /** The encoding without its padding. */
  function Body(s: JsString): JsString {
    if |s| == 0 then []
    else if |s| == 1 then Encode(s)[..2]
    else if |s| == 2 then Encode(s)[..3]
    else Quad(Group(ByteAt(s, 0), ByteAt(s, 1), ByteAt(s, 2)), 4) + Body(s[3..])
  }

  lemma {:induction false} BodyLength(s: JsString)
    ensures |Body(s)| % 4 != 1 && (s != [] ==> Body(s) != [])
  {
    if |s| >= 3 {
      BodyLength(s[3..]);
    }
  }

  lemma {:induction false} StripConcat(a: JsString, b: JsString)
    requires StripPad(b) != []
    ensures StripPad(a + b) == a + StripPad(b)
    decreases |b|
  {
    if b[|b| - 1] == PAD {
      assert (a + b)[..|a + b| - 1] == a + b[..|b| - 1];
      StripConcat(a, b[..|b| - 1]);
    }
  }

  lemma StripOne(a: JsString)
    ensures StripPad(a + [PAD]) == StripPad(a)
  {
    assert (a + [PAD])[..|a|] == a;
  }

  lemma {:induction false} StrippedEncodeIsBody(s: JsString)
    ensures StripPad(Encode(s)) == Body(s)
  {
    if |s| == 0 {
    } else if |s| == 1 {
      var q := Quad(Group(ByteAt(s, 0), 0, 0), 2);
      StripOne(q[..3]);
      StripOne(q[..2]);
      assert q == q[..3] + [PAD] && q[..3] == q[..2] + [PAD];
    } else if |s| == 2 {
      var q := Quad(Group(ByteAt(s, 0), ByteAt(s, 1), 0), 3);
      StripOne(q[..3]);
      assert q == q[..3] + [PAD];
    } else {
      var q := Quad(Group(ByteAt(s, 0), ByteAt(s, 1), ByteAt(s, 2)), 4);
      StrippedEncodeIsBody(s[3..]);
      BodyLength(s[3..]);
      if s[3..] == [] {
        assert q + [] == q;
      } else {
        StripConcat(q, Encode(s[3..]));
      }
    }
  }

  lemma DecodeSymbol(v: bv32, rest: JsString, bc: nat, bs: bv32)
    requires v < 64
    ensures var next := Accumulate(bs, bc, v);
            DecodeFrom([Symbol(v)] + rest, bc, bs) == Emitted(next, bc) + DecodeFrom(rest, bc + 1, next)
  {
    SymbolHasIndex(v);
    assert ([Symbol(v)] + rest)[1..] == rest;
  }

  /** Two, three and four sextets of a group bring back one, two and three bytes. */
  lemma SextetsRestore(b0: bv32, b1: bv32, b2: bv32)
    requires b0 <= 0xff && b1 <= 0xff && b2 <= 0xff
    ensures var g := Group(b0, b1, b2);
            var two := Sextet(g, 0) * 64 + Sextet(g, 1);
            var three := two * 64 + Sextet(g, 2);
            var four := three * 64 + Sextet(g, 3);
            255 & (two >> 4) == b0 && 255 & (three >> 2) == b1 && 255 & four == b2
  {
  }

  function Two(g: bv32): bv32 { Widened(Sextet(g, 0), Sextet(g, 1)) }

  function Three(g: bv32): bv32 { Widened(Two(g), Sextet(g, 2)) }

  function Four(g: bv32): bv32 { Widened(Three(g), Sextet(g, 3)) }

  /** A character that completes the byte `b`. */
  lemma DecodeNext(v: bv32, bs: bv32, next: bv32, b: CodeUnit, rest: JsString, bc: nat)
    requires v < 64 && bc % 4 != 0 && next == Accumulate(bs, bc, v) && Completed(next, bc + 1) == b
    ensures DecodeFrom([Symbol(v)] + rest, bc, bs) == [b] + DecodeFrom(rest, bc + 1, next)
  {
    DecodeSymbol(v, rest, bc, bs);
  }

  lemma DecodePair(v: bv32, w: bv32, next: bv32, b: CodeUnit, rest: JsString, bc: nat, bs: bv32)
    requires v < 64 && w < 64 && bc % 4 == 0
    requires next == Accumulate(v, bc + 1, w) && Completed(next, bc + 2) == b
    ensures DecodeFrom([Symbol(v), Symbol(w)] + rest, bc, bs) == [b] + DecodeFrom(rest, bc + 2, next)
  {
    var tail := [Symbol(w)] + rest;
    assert [Symbol(v), Symbol(w)] + rest == [Symbol(v)] + tail;
    DecodeSymbol(v, tail, bc, bs);
    assert Accumulate(bs, bc, v) == v && Emitted(v, bc) == [];
    DecodeNext(w, v, next, b, rest, bc + 1);
  }

  lemma CompletedFirst(b0: bv32, b1: bv32, b2: bv32, bc: nat)
    requires b0 <= 0xff && b1 <= 0xff && b2 <= 0xff && bc % 4 == 2
    ensures Completed(Two(Group(b0, b1, b2)), bc) == b0 as CodeUnit
  {
    SextetsRestore(b0, b1, b2);
  }

  lemma CompletedSecond(b0: bv32, b1: bv32, b2: bv32, bc: nat)
    requires b0 <= 0xff && b1 <= 0xff && b2 <= 0xff && bc % 4 == 3
    ensures Completed(Three(Group(b0, b1, b2)), bc) == b1 as CodeUnit
  {
    SextetsRestore(b0, b1, b2);
  }

  lemma CompletedThird(b0: bv32, b1: bv32, b2: bv32, bc: nat)
    requires b0 <= 0xff && b1 <= 0xff && b2 <= 0xff && bc % 4 == 0
    ensures Completed(Four(Group(b0, b1, b2)), bc) == b2 as CodeUnit
  {
    SextetsRestore(b0, b1, b2);
  }

  lemma ByteBack(s: JsString, i: nat)
    requires Bytes(s) && i < |s|
    ensures ByteAt(s, i) <= 0xff && ByteAt(s, i) as CodeUnit == s[i]
  {
    ByteFits(s, i);
  }

  /** How the accumulator runs through the sextets of a group. */
  lemma AccumulateSextets(g: bv32, bc: nat)
    requires bc % 4 == 0
    ensures Accumulate(Sextet(g, 0), bc + 1, Sextet(g, 1)) == Two(g)
    ensures Accumulate(Two(g), bc + 2, Sextet(g, 2)) == Three(g)
    ensures Accumulate(Three(g), bc + 3, Sextet(g, 3)) == Four(g)
  {
    hide Widened, Sextet;
  }

  ghost predicate GroupAt(s: JsString, g: bv32) {
    g == Group(ByteAt(s, 0), ByteAt(s, 1), ByteAt(s, 2))
  }

  lemma DecodeOne(s: JsString, g: bv32, rest: JsString, bc: nat, bs: bv32)
    requires Bytes(s) && |s| >= 1 && GroupAt(s, g) && bc % 4 == 0
    ensures DecodeFrom([Symbol(Sextet(g, 0)), Symbol(Sextet(g, 1))] + rest, bc, bs) ==
            [s[0]] + DecodeFrom(rest, bc + 2, Two(g))
  {
    assert Completed(Two(g), bc + 2) == s[0] by {
      ByteBack(s, 0);
      BytesFit(s, 1);
      BytesFit(s, 2);
      CompletedFirst(ByteAt(s, 0), ByteAt(s, 1), ByteAt(s, 2), bc + 2);
    }
    AccumulateSextets(g, bc);
    DecodePair(Sextet(g, 0), Sextet(g, 1), Two(g), s[0], rest, bc, bs);
  }

  lemma DecodeTwo(s: JsString, g: bv32, rest: JsString, bc: nat)
    requires Bytes(s) && |s| >= 2 && GroupAt(s, g) && bc % 4 == 0
    ensures DecodeFrom([Symbol(Sextet(g, 2))] + rest, bc + 2, Two(g)) == [s[1]] + DecodeFrom(rest, bc + 3, Three(g))
  {
    assert Completed(Three(g), bc + 3) == s[1] by {
      BytesFit(s, 0);
      ByteBack(s, 1);
      BytesFit(s, 2);
      CompletedSecond(ByteAt(s, 0), ByteAt(s, 1), ByteAt(s, 2), bc + 3);
    }
    AccumulateSextets(g, bc);
    DecodeNext(Sextet(g, 2), Two(g), Three(g), s[1], rest, bc + 2);
  }

  lemma DecodeThree(s: JsString, g: bv32, rest: JsString, bc: nat)
    requires Bytes(s) && |s| >= 3 && GroupAt(s, g) && bc % 4 == 0
    ensures DecodeFrom([Symbol(Sextet(g, 3))] + rest, bc + 3, Three(g)) == [s[2]] + DecodeFrom(rest, bc + 4, Four(g))
  {
    assert Completed(Four(g), bc + 4) == s[2] by {
      BytesFit(s, 0);
      BytesFit(s, 1);
      ByteBack(s, 2);
      CompletedThird(ByteAt(s, 0), ByteAt(s, 1), ByteAt(s, 2), bc + 4);
    }
    AccumulateSextets(g, bc);
    DecodeNext(Sextet(g, 3), Three(g), Four(g), s[2], rest, bc + 3);
  }

  lemma QuadUnfolds(g: bv32, rest: JsString)
    ensures Quad(g, 4) + rest ==
            [Symbol(Sextet(g, 0)), Symbol(Sextet(g, 1))]
            + ([Symbol(Sextet(g, 2))] + ([Symbol(Sextet(g, 3))] + rest))
  {
  }

  lemma DecodeGroup(s: JsString, g: bv32, rest: JsString, bc: nat, bs: bv32)
    requires Bytes(s) && |s| >= 3 && GroupAt(s, g) && bc % 4 == 0
    ensures DecodeFrom(Quad(g, 4) + rest, bc, bs) ==
            [s[0]] + ([s[1]] + ([s[2]] + DecodeFrom(rest, bc + 4, Four(g))))
  {
    var fourth := [Symbol(Sextet(g, 3))] + rest;
    var third := [Symbol(Sextet(g, 2))] + fourth;
    QuadUnfolds(g, rest);
    DecodeOne(s, g, third, bc, bs);
    DecodeTwo(s, g, fourth, bc);
    DecodeThree(s, g, rest, bc);
  }

  /** What follows the first two symbols when fewer than three bytes are left. */
  function ShortTail(s: JsString, g: bv32): JsString {
    if |s| == 1 then [] else [Symbol(Sextet(g, 2))] + []
  }

  lemma ShortBody(s: JsString, g: bv32)
    requires 1 <= |s| <= 2 && GroupAt(s, g)
    ensures Body(s) == [Symbol(Sextet(g, 0)), Symbol(Sextet(g, 1))] + ShortTail(s, g)
  {
    hide Group, Symbol, Sextet;
  }

  lemma NothingDecoded(bc: nat, bs: bv32)
    ensures DecodeFrom([], bc, bs) == [] && Body([]) == []
  {
  }

  lemma DecodeShort(s: JsString, bc: nat, bs: bv32)
    requires Bytes(s) && 1 <= |s| <= 2 && bc % 4 == 0
    ensures DecodeFrom(Body(s), bc, bs) == s
  {
    hide Body, Symbol, Sextet, Group, Two, Three, ByteAt, DecodeFrom;
    var g := Group(ByteAt(s, 0), ByteAt(s, 1), ByteAt(s, 2));
    ShortBody(s, g);
    DecodeOne(s, g, ShortTail(s, g), bc, bs);
    NothingDecoded(bc + 2, Two(g));
    NothingDecoded(bc + 3, Three(g));
    if |s| == 2 {
      DecodeTwo(s, g, [], bc);
    }
  }

  lemma BodyUnfolds(s: JsString)
    requires |s| >= 3
    ensures Body(s) == Quad(Group(ByteAt(s, 0), ByteAt(s, 1), ByteAt(s, 2)), 4) + Body(s[3..])
    ensures GroupAt(s, Group(ByteAt(s, 0), ByteAt(s, 1), ByteAt(s, 2)))
    ensures Bytes(s) ==> Bytes(s[3..])
  {
    hide Group, Quad;
  }

  lemma {:induction false} DecodeBody(s: JsString, bc: nat, bs: bv32)
    requires Bytes(s) && bc % 4 == 0
    ensures DecodeFrom(Body(s), bc, bs) == s
    decreases |s|
  {
    hide DecodeFrom, Group, Quad, ByteAt, Body, Bytes;
    if |s| == 0 {
      NothingDecoded(bc, bs);
    } else if |s| <= 2 {
      DecodeShort(s, bc, bs);
    } else {
      BodyUnfolds(s);
      var g := Group(ByteAt(s, 0), ByteAt(s, 1), ByteAt(s, 2));
      DecodeBody(s[3..], bc + 4, Four(g));
      DecodeGroup(s, g, Body(s[3..]), bc, bs);
      assert s == [s[0]] + ([s[1]] + ([s[2]] + s[3..]));
    }
  }

  /** `atob(btoa(s)) = s` for every string of bytes. */
  lemma RoundTrip(s: JsString)
    requires Bytes(s)
    ensures Decode(Encode(s)) == Ok(s)
  {
    StrippedEncodeIsBody(s);
    BodyLength(s);
    DecodeBody(s, 0, 0);
  }

  /** The two polyfills called one after the other. */
  method BtoaThenAtob(s: JsString) returns (encoded: Result<JsString>, decoded: Result<JsString>)
    ensures encoded.Ok? <==> Bytes(s)
    ensures Bytes(s) ==> decoded == Ok(s)
  {
    encoded := Btoa(s);
    if encoded.Err? {
      return encoded, Err;
    }
    decoded := Atob(encoded.value);
    RoundTrip(s);
  }

  /** A character outside the alphabet makes no difference to what is decoded. */
  lemma {:induction false} UnknownCharactersSkipped(a: JsString, c: CodeUnit, b: JsString, bc: nat, bs: bv32)
    requires IndexOf(c).None?
    ensures DecodeFrom(a + [c] + b, bc, bs) == DecodeFrom(a + b, bc, bs)
  {
    if a == [] {
      assert (a + [c] + b)[1..] == b && a + b == b;
    } else {
      assert (a + [c] + b)[1..] == a[1..] + [c] + b && (a + b)[1..] == a[1..] + b;
      match IndexOf(a[0])
      case None => UnknownCharactersSkipped(a[1..], c, b, bc, bs);
      case Some(v) => UnknownCharactersSkipped(a[1..], c, b, bc + 1, Accumulate(bs, bc, v));
    }
  }
}

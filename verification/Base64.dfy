/**
 The `btoa` and `atob` polyfills, over strings of 16-bit code units, against the
 base 64 encoding of section 4 of RFC 4648.
 */
module Base64 {
  import opened Wrappers

  type CodeUnit = bv16
  type JsString = seq<CodeUnit>

  /** The pad character `=`. */
  const PAD: CodeUnit := 61

  // ---- The alphabet (table 1 of RFC 4648)

  function Symbol(v: bv32): CodeUnit
    requires v < 64
  {
    if v < 26 then (65 + v) as CodeUnit        // A to Z
    else if v < 52 then (71 + v) as CodeUnit   // a to z
    else if v < 62 then (v - 4) as CodeUnit    // 0 to 9
    else if v == 62 then 43                    // +
    else 47                                    // /
  }

  /** `chars.indexOf`, where the pad character stands behind the 64 symbols. */
  function IndexOf(c: CodeUnit): Option<bv32> {
    if 65 <= c <= 90 then Some(c as bv32 - 65)
    else if 97 <= c <= 122 then Some(c as bv32 - 71)
    else if 48 <= c <= 57 then Some(c as bv32 + 4)
    else if c == 43 then Some(62)
    else if c == 47 then Some(63)
    else if c == PAD then Some(64)
    else None
  }

  lemma SymbolHasIndex(v: bv32)
    requires v < 64
    ensures IndexOf(Symbol(v)) == Some(v) && Symbol(v) != PAD
  {
  }

  /**
   The alphabet runs from A to Z, a to z and 0 to 9, with + and / behind them (table 1 of
   RFC 4648); `IndexOf` finds each symbol, the pad behind them and nothing else.
   */
  lemma AlphabetIsTable1(c: CodeUnit, v: bv32)
    requires v < 64
    ensures Symbol(0) == 65 && Symbol(25) == 90 && Symbol(26) == 97 && Symbol(51) == 122
    ensures Symbol(52) == 48 && Symbol(61) == 57 && Symbol(62) == 43 && Symbol(63) == 47
    ensures v != 25 && v != 51 && v < 61 ==> Symbol(v + 1) == Symbol(v) + 1
    ensures IndexOf(c) == Some(v) <==> c == Symbol(v)
    ensures IndexOf(c) == Some(64) <==> c == 61
    ensures IndexOf(c).Some? && c != 61 ==> IndexOf(c).value < 64
  {
  }

  // ---- RFC 4648, section 4

  /** Three bytes side by side. */
  function Group(b0: bv32, b1: bv32, b2: bv32): bv32 {
    (b0 << 16) | (b1 << 8) | b2
  }

  /** The r-th group of six bits. */
  function Sextet(group: bv32, r: nat): (v: bv32)
    requires r < 4
    ensures v < 64
  {
    match r
    case 0 => (group >> 18) & 63
    case 1 => (group >> 12) & 63
    case 2 => (group >> 6) & 63
    case _ => group & 63
  }

  function QuadAt(group: bv32, n: nat, r: nat): CodeUnit
    requires r < 4
  {
    if r < n then Symbol(Sextet(group, r)) else PAD
  }

  /** The first `n` sextets as symbols, padded to four characters. */
  function Quad(group: bv32, n: nat): JsString
    requires n <= 4
  {
    [QuadAt(group, n, 0), QuadAt(group, n, 1), QuadAt(group, n, 2), QuadAt(group, n, 3)]
  }

  /** `charCodeAt`; past the end it is NaN, which shifts in as 0. */
  function ByteAt(s: JsString, i: nat): bv32 {
    if i < |s| then s[i] as bv32 else 0
  }

  function Encode(s: JsString): JsString {
    if |s| == 0 then []
    else if |s| == 1 then Quad(Group(ByteAt(s, 0), 0, 0), 2)
    else if |s| == 2 then Quad(Group(ByteAt(s, 0), ByteAt(s, 1), 0), 3)
    else Quad(Group(ByteAt(s, 0), ByteAt(s, 1), ByteAt(s, 2)), 4) + Encode(s[3..])
  }

  predicate Bytes(s: JsString) {
    forall i | 0 <= i < |s| :: s[i] <= 0xff
  }

  /** The j-th character of the encoding, without recursion. */
  function EncodedAt(s: JsString, j: nat): CodeUnit {
    var g := 3 * (j / 4);
    if j % 4 >= 2 && g + j % 4 - 1 >= |s| then PAD
    else Symbol(Sextet(Group(ByteAt(s, g), ByteAt(s, g + 1), ByteAt(s, g + 2)), j % 4))
  }

  lemma {:induction false} EncodeLength(s: JsString)
    ensures |Encode(s)| == 4 * ((|s| + 2) / 3)
    decreases |s|
  {
    if |s| >= 3 {
      EncodeLength(s[3..]);
    }
  }

  lemma EncodedAtLater(s: JsString, j: nat)
    requires |s| >= 3 && j >= 4
    ensures EncodedAt(s[3..], j - 4) == EncodedAt(s, j)
  {
    var g := 3 * (j / 4);
    assert (j - 4) / 4 == j / 4 - 1 && (j - 4) % 4 == j % 4;
    assert ByteAt(s[3..], g - 3) == ByteAt(s, g);
    assert ByteAt(s[3..], g - 2) == ByteAt(s, g + 1);
    assert ByteAt(s[3..], g - 1) == ByteAt(s, g + 2);
  }

  lemma FirstQuad(s: JsString, j: nat)
    requires s != [] && j < 4
    ensures |Encode(s)| >= 4
    ensures Encode(s)[j] ==
            QuadAt(Group(ByteAt(s, 0), ByteAt(s, 1), ByteAt(s, 2)), if |s| >= 3 then 4 else |s| + 1, j)
  {
    hide QuadAt, Group;
  }

  lemma EncodedAtFirst(s: JsString, j: nat)
    requires s != [] && j < 4
    ensures |Encode(s)| >= 4 && EncodedAt(s, j) == Encode(s)[j]
  {
    hide Encode, Sextet, Group, ByteAt;
    assert j / 4 == 0 && j % 4 == j;
    FirstQuad(s, j);
  }

  lemma {:induction false} EncodedAtIsEncode(s: JsString, j: nat)
    requires j < |Encode(s)|
    ensures Encode(s)[j] == EncodedAt(s, j)
    decreases |s|
  {
    if j < 4 {
      EncodedAtFirst(s, j);
    } else {
      EncodedAtIsEncode(s[3..], j - 4);
      EncodedAtLater(s, j);
    }
  }

  // ---- btoa

  /** The arithmetic right shift of a 32-bit integer. */
  function ShiftRight(x: bv32, n: nat): bv32
    requires 0 < n < 32
  {
    if x & 0x8000_0000 == 0 then x >> n else (x >> n) | !(0xffff_ffff >> n)
  }

  /** `63 & (block >> (8 - (i % 1) * 8))`, where `i` counts whole bytes and quarters. */
  function Picked(block: bv32, quarters: nat): bv32 {
    match quarters % 4
    case 0 => 63 & ShiftRight(block, 8)
    case 1 => 63 & ShiftRight(block, 6)
    case 2 => 63 & ShiftRight(block, 4)
    case _ => 63 & ShiftRight(block, 2)
  }

  /** The block with one more byte shifted in. */
  function Shifted(block: bv32, next: bv32): bv32 {
    (block << 8) | next
  }

  /** The byte most recently shifted in. */
  function Low(block: bv32): bv32 {
    block & 0xff
  }

  lemma PickFirst(block: bv32, b0: bv32, b1: bv32, b2: bv32, quarters: nat)
    requires b0 <= 0xff && b1 <= 0xff && b2 <= 0xff && quarters % 4 == 3
    ensures Picked(Shifted(block, b0), quarters) == Sextet(Group(b0, b1, b2), 0)
  {
  }

  lemma PickSecond(block: bv32, b0: bv32, b1: bv32, b2: bv32, quarters: nat)
    requires b0 <= 0xff && b1 <= 0xff && b2 <= 0xff && Low(block) == b0 && quarters % 4 == 2
    ensures Picked(Shifted(block, b1), quarters) == Sextet(Group(b0, b1, b2), 1)
  {
  }

  lemma PickThird(block: bv32, b0: bv32, b1: bv32, b2: bv32, quarters: nat)
    requires b0 <= 0xff && b1 <= 0xff && b2 <= 0xff && Low(block) == b1 && quarters % 4 == 1
    ensures Picked(Shifted(block, b2), quarters) == Sextet(Group(b0, b1, b2), 2)
  {
  }

  lemma PickFourth(block: bv32, b0: bv32, b1: bv32, b2: bv32, next: bv32, quarters: nat)
    requires b0 <= 0xff && b1 <= 0xff && b2 <= 0xff && next <= 0xff && Low(block) == b2 && quarters % 4 == 0
    ensures Picked(Shifted(block, next), quarters) == Sextet(Group(b0, b1, b2), 3)
  {
  }

  lemma LowByte(block: bv32, next: bv32)
    requires next <= 0xff
    ensures Low(Shifted(block, next)) == next
  {
  }

  lemma PaddedSextetIsZero(b0: bv32, b1: bv32)
    requires b0 <= 0xff && b1 <= 0xff
    ensures Sextet(Group(b0, 0, 0), 2) == 0 && Sextet(Group(b0, b1, 0), 3) == 0
  {
  }

  lemma ByteFits(s: JsString, i: nat)
    ensures ByteAt(s, i) <= 0xff <==> (i < |s| ==> s[i] <= 0xff)
  {
  }

  lemma BytesFit(s: JsString, i: nat)
    requires Bytes(s)
    ensures ByteAt(s, i) <= 0xff
  {
    if i < |s| {
      ByteFits(s, i);
    }
  }

  /** The byte most recently shifted into the block once `j` characters are out. */
  function LastRead(str: JsString, j: nat): bv32 {
    if j == 0 then 0 else ByteAt(str, 3 * j / 4)
  }

  /** Where turn `j` stands: its group, the byte it reads and the quarter it ends on. */
  lemma TurnPosition(j: nat)
    ensures var g := 3 * (j / 4);
            && 3 * (j + 1) % 4 == 3 - j % 4
            && 3 * (j + 1) / 4 == g + j % 4
            && (j % 4 > 0 ==> 3 * j / 4 == g + j % 4 - 1)
            && 3 * j % 4 == (if j % 4 == 0 then 0 else 4 - j % 4)
  {
    var m := j / 4;
    assert j == 4 * m + j % 4;
    assert 3 * (j + 1) == 4 * (3 * m + j % 4) + 3 - j % 4;
    assert 3 * j == 4 * (3 * m) + 3 * (j % 4);
  }

  /** Turn `j` picks the j-th sextet, although it reads every third byte twice. */
  lemma TurnPicksSextet(str: JsString, j: nat, block: bv32)
    requires Bytes(str) && Low(block) == LastRead(str, j)
    ensures var g := 3 * (j / 4);
            Picked(Shifted(block, LastRead(str, j + 1)), 3 * (j + 1)) ==
            Sextet(Group(ByteAt(str, g), ByteAt(str, g + 1), ByteAt(str, g + 2)), j % 4)
  {
    var g, next := 3 * (j / 4), LastRead(str, j + 1);
    TurnPosition(j);
    BytesFit(str, 3 * (j + 1) / 4);
    PickInTurn(block, ByteAt(str, g), ByteAt(str, g + 1), ByteAt(str, g + 2), next, j % 4, 3 * (j + 1)) by {
      BytesFit(str, g);
      BytesFit(str, g + 1);
      BytesFit(str, g + 2);
    }
  }

  lemma PickInTurn(block: bv32, b0: bv32, b1: bv32, b2: bv32, next: bv32, r: nat, quarters: nat)
    requires b0 <= 0xff && b1 <= 0xff && b2 <= 0xff && next <= 0xff
    requires r < 4 && quarters % 4 == 3 - r
    requires r == 0 ==> next == b0
    requires r == 1 ==> next == b1 && Low(block) == b0
    requires r == 2 ==> next == b2 && Low(block) == b1
    requires r == 3 ==> Low(block) == b2
    ensures Picked(Shifted(block, next), quarters) == Sextet(Group(b0, b1, b2), r)
  {
    hide Picked, Sextet, Group, Shifted, Low;
    match r
    case 0 => PickFirst(block, b0, b1, b2, quarters);
    case 1 => PickSecond(block, b0, b1, b2, quarters);
    case 2 => PickThird(block, b0, b1, b2, quarters);
    case 3 => PickFourth(block, b0, b1, b2, next, quarters);
  }

  /** `map.charAt(v)`: with the pad string as map, only position 0 has a character. */
  function CharAt(padding: bool, v: bv32): JsString
    requires v < 64
  {
    if !padding then [Symbol(v)] else if v == 0 then [PAD] else []
  }

  /** In the padding turns the sextet picked is zero, so the pad string has a character for it. */
  lemma PaddingPicksZero(str: JsString, j: nat)
    requires Bytes(str) && 3 * (j / 4) < |str| && 3 * j / 4 >= |str|
    ensures var g := 3 * (j / 4);
            && g + j % 4 - 1 >= |str| && j % 4 >= 2
            && Sextet(Group(ByteAt(str, g), ByteAt(str, g + 1), ByteAt(str, g + 2)), j % 4) == 0
  {
    hide Sextet, Group;
    var g := 3 * (j / 4);
    TurnPosition(j);
    BytesFit(str, g);
    BytesFit(str, g + 1);
    PaddedSextetIsZero(ByteAt(str, g), ByteAt(str, g + 1));
  }

  lemma NoPaddingYet(str: JsString, j: nat)
    requires 3 * (j / 4) < |str| && 3 * j / 4 < |str|
    ensures j % 4 < 2 || 3 * (j / 4) + j % 4 - 1 < |str|
  {
    TurnPosition(j);
  }

  /** What turn `j` appends is the j-th character of the encoding. */
  lemma TurnAppends(str: JsString, j: nat, block: bv32, padding: bool)
    requires Bytes(str) && Low(block) == LastRead(str, j)
    requires 3 * (j / 4) < |str|
    requires padding <==> 3 * j / 4 >= |str|
    ensures var shifted := Shifted(block, LastRead(str, j + 1));
            var v := Picked(shifted, 3 * (j + 1));
            && v < 64 && CharAt(padding, v) == [EncodedAt(str, j)]
            && Low(shifted) == LastRead(str, j + 1)
  {
    hide Picked, Sextet, Group, Symbol, ByteAt, Shifted, Low;
    TurnPicksSextet(str, j, block);
    BytesFit(str, 3 * (j + 1) / 4);
    LowByte(block, LastRead(str, j + 1));
    if padding {
      PaddingPicksZero(str, j);
    } else {
      NoPaddingYet(str, j);
    }
  }

  lemma EncodeByPositions(s: JsString, output: JsString)
    requires |output| == 4 * ((|s| + 2) / 3)
    requires forall j | 0 <= j < |output| :: output[j] == EncodedAt(s, j)
    ensures output == Encode(s)
  {
    EncodeLength(s);
    forall j | 0 <= j < |output| ensures output[j] == Encode(s)[j] {
      EncodedAtIsEncode(s, j);
    }
  }

  /** The first `turns` characters are out and the block's low byte is the last one read. */
  ghost predicate Encoding(str: JsString, turns: nat, block: bv32, output: JsString) {
    && Low(block) == LastRead(str, turns)
    && |output| == turns
    && forall j | 0 <= j < turns :: output[j] == EncodedAt(str, j)
  }

  lemma TurnEncodes(str: JsString, turns: nat, block: bv32, output: JsString, padding: bool)
    requires Bytes(str) && Encoding(str, turns, block, output)
    requires 3 * (turns / 4) < |str| && (padding <==> 3 * turns / 4 >= |str|)
    ensures var shifted := Shifted(block, ByteAt(str, 3 * (turns + 1) / 4));
            && Picked(shifted, 3 * (turns + 1)) < 64
            && Encoding(str, turns + 1, shifted, output + CharAt(padding, Picked(shifted, 3 * (turns + 1))))
  {
    hide EncodedAt, Picked, CharAt, ByteAt, Shifted, Low;
    TurnAppends(str, turns, block, padding);
  }

  lemma EncodingStarts(str: JsString)
    ensures Encoding(str, 0, 0, [])
  {
  }

  lemma EncodingEnds(str: JsString, turns: nat, block: bv32, output: JsString)
    requires Encoding(str, turns, block, output) && turns == 4 * ((|str| + 2) / 3)
    ensures output == Encode(str)
  {
    EncodeByPositions(str, output);
  }

  /** The loop ends after the last full group of turns, and every turn before that belongs to a group. */
  lemma TurnBounds(n: nat, turns: nat)
    requires turns <= 4 * ((n + 2) / 3) && (turns % 4 > 0 ==> 3 * (turns / 4) < n)
    ensures 3 * turns / 4 >= n && 3 * turns % 4 == 0 ==> turns == 4 * ((n + 2) / 3)
    ensures !(3 * turns / 4 >= n && 3 * turns % 4 == 0) ==>
              && turns < 4 * ((n + 2) / 3) && 3 * (turns / 4) < n
              && ((turns + 1) % 4 > 0 ==> 3 * ((turns + 1) / 4) < n)
    ensures 3 * turns / 4 <= 3 * (turns + 1) / 4 <= 3 * turns / 4 + 1
  {
    TurnPosition(turns);
  }

  /** Strings of bytes are encoded; any other string is refused. */
  method Btoa(str: JsString) returns (r: Result<JsString>)
    ensures r == if Bytes(str) then Ok(Encode(str)) else Err
    ensures r.Err? <==> exists i :: 0 <= i < |str| && str[i] > 0xff
  {
    hide Encode, EncodedAt, Encoding, Picked, CharAt, LastRead, ByteAt, Shifted;
    var block: bv32 := 0;
    var quarters: nat := 0;
    var padding := false;
    var output: JsString := [];
    ghost var turns: nat := 0;
    ghost var all := 4 * ((|str| + 2) / 3);
    EncodingStarts(str);
    while true
      invariant quarters == 3 * turns && turns <= all
      invariant turns % 4 > 0 ==> 3 * (turns / 4) < |str|
      invariant padding ==> 3 * turns / 4 >= |str|
      invariant turns > 0 ==> forall i | 0 <= i < |str| && i <= 3 * turns / 4 :: str[i] <= 0xff
      invariant Bytes(str) ==> Encoding(str, turns, block, output)
      decreases all - turns
    {
      TurnBounds(|str|, turns);
      if quarters / 4 >= |str| {
        padding := true;
        if quarters % 4 == 0 {
          break;
        }
      }
      quarters := quarters + 3;
      var charCode := ByteAt(str, quarters / 4);
      ByteFits(str, quarters / 4);
      if charCode > 0xff {
        return Err;
      }
      if Bytes(str) {
        TurnEncodes(str, turns, block, output, padding);
      }
      block := Shifted(block, charCode);
      PickedSmall(block, quarters);
      output := output + CharAt(padding, Picked(block, quarters));
      turns := turns + 1;
    }
    if Bytes(str) {
      EncodingEnds(str, turns, block, output);
    }
    return Ok(output);
  }

  lemma PickedSmall(block: bv32, quarters: nat)
    ensures Picked(block, quarters) < 64
  {
  }
}

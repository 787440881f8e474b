/**
 * The ToUnicode CMap of an embedded TrueType font (section 9.10.3 of
 * ISO 32000-1): one `bfchar` mapping per glyph that has a Unicode string,
 * from the glyph index (written as a two-byte code) to the UTF-16BE code
 * units of that string, emitted in blocks of at most 100 mappings.
 */
module ToUnicodeCmap {
  import opened Wrappers
  import Format

  type Pair = (string, string)

  // ----------------------------------------------------------------------
  // Hex fields

  /** `h` left-padded with '0' to at least four characters. */
  function Padded(h: string): string
  {
    if |h| < 4 then Format.Zeros(4 - |h|) + h else h
  }

  /** The loop that prepends '0' while the string is shorter than four characters. */
  method PadHex(h: string) returns (r: string)
    ensures |r| == if |h| < 4 then 4 else |h|
    ensures r == Format.Zeros(|r| - |h|) + h
    ensures r == Padded(h)
  {
    r := h;
    while |r| < 4
      invariant |h| <= |r| && (|h| < 4 ==> |r| <= 4) && (|h| >= 4 ==> r == h)
      invariant r == Format.Zeros(|r| - |h|) + h
      decreases 4 - |r|
    {
      PrependZero(r, h);
      r := "0" + r;
    }
    assert |h| >= 4 ==> Format.Zeros(0) + h == h;
  }

  /** One more leading '0' is one more zero in the padding. */
  lemma {:induction false} PrependZero(r: string, h: string)
    requires |h| <= |r| && r == Format.Zeros(|r| - |h|) + h
    ensures "0" + r == Format.Zeros(|r| + 1 - |h|) + h
  {
    assert "0" + Format.Zeros(|r| - |h|) == Format.Zeros(|r| + 1 - |h|);
  }

  /** A padded hex field is hex digits, reads back as the number, and is exactly four digits below 0x10000. */
  lemma {:induction false} PaddedHex(n: nat)
    ensures Format.IsDigits(Padded(Format.Hex(n)), 16)
    ensures Format.FromBase(Padded(Format.Hex(n)), 16) == n
    ensures n < 0x10000 ==> |Padded(Format.Hex(n))| == 4
  {
    var h := Format.Hex(n);
    assert Format.IsDigits(Padded(h), 16) && Format.FromBase(Padded(h), 16) == n by {
      Format.ToBaseDigits(n, 16);
      Format.FromBaseToBase(n, 16);
      if |h| < 4 {
        Format.FromBaseZeros(4 - |h|, h, 16);
      }
    }
    if n < 0x10000 {
      assert |Padded(h)| == 4 by {
        Format.HexLength(n);
      }
    }
  }

  // ----------------------------------------------------------------------
  // UTF-16 (RFC 2781)

  /** The UTF-16 code units of a character: one below 0x10000, else a surrogate pair. */
  function CodeUnits(c: char): seq<nat>
  {
    var v := c as int;
    if v < 0x10000 then [v]
    else [0xD800 + (v - 0x10000) / 0x400, 0xDC00 + (v - 0x10000) % 0x400]
  }

  function Utf16(s: string): seq<nat>
  {
    if s == [] then [] else CodeUnits(s[0]) + Utf16(s[1..])
  }

  /** Code units, four hex digits each. */
  function HexUnits(units: seq<nat>): string
  {
    if units == [] then [] else Padded(Format.Hex(units[0])) + HexUnits(units[1..])
  }

  /** The destination of a mapping: the UTF-16BE encoding of `u` in hex. */
  function UnicodeHex(u: string): string
  {
    HexUnits(Utf16(u))
  }

  /** Reads groups of four hex digits back into code units. */
  function ParseUnits(h: string): Option<seq<nat>>
    decreases |h|
  {
    if h == [] then Some([])
    else if |h| < 4 || !Format.IsDigits(h[..4], 16) then None
    else
      match ParseUnits(h[4..])
      case None => None
      case Some(rest) => Some([Format.FromBase(h[..4], 16)] + rest)
  }

  /** Decodes UTF-16 code units; None for an unpaired surrogate or a value that is not a code unit. */
  function DecodeUtf16(units: seq<nat>): Option<string>
    decreases |units|
  {
    if units == [] then Some([])
    else
      var u := units[0];
      if 0xD800 <= u < 0xDC00 then
        if |units| >= 2 && 0xDC00 <= units[1] < 0xE000 then
          match DecodeUtf16(units[2..])
          case None => None
          case Some(rest) => Some([((u - 0xD800) * 0x400 + (units[1] - 0xDC00) + 0x10000) as char] + rest)
        else None
      else if 0xDC00 <= u < 0xE000 || u >= 0x10000 then None
      else
        match DecodeUtf16(units[1..])
        case None => None
        case Some(rest) => Some([u as char] + rest)
  }

  /** How a reader of the CMap interprets a destination string. */
  function DecodeDestination(h: string): Option<string>
  {
    match ParseUnits(h)
    case None => None
    case Some(units) => DecodeUtf16(units)
  }

  lemma {:induction false} DecodeUtf16Cons(c: char, rest: seq<nat>)
    ensures forall u :: u in CodeUnits(c) ==> u < 0x10000
    ensures DecodeUtf16(CodeUnits(c) + rest) ==
      match DecodeUtf16(rest)
      case None => None
      case Some(s) => Some([c] + s)
  {
    var v := c as int;
    var units := CodeUnits(c) + rest;
    if v < 0x10000 {
      assert units[1..] == rest;
    } else {
      var q := (v - 0x10000) / 0x400;
      var r := (v - 0x10000) % 0x400;
      assert q * 0x400 + r == v - 0x10000;
      assert units[2..] == rest;
      assert (q * 0x400 + r + 0x10000) as char == c;
    }
  }

  /** UTF-16 encoding is decoded back to the string, and every unit is below 0x10000. */
  lemma {:induction false} Utf16RoundTrip(s: string)
    ensures DecodeUtf16(Utf16(s)) == Some(s)
    ensures forall u :: u in Utf16(s) ==> u < 0x10000
  {
    if s != [] {
      Utf16RoundTrip(s[1..]);
      DecodeUtf16Cons(s[0], Utf16(s[1..]));
      assert [s[0]] + s[1..] == s;
    }
  }

  lemma {:induction false} ParseHexUnits(units: seq<nat>)
    requires forall u :: u in units ==> u < 0x10000
    ensures ParseUnits(HexUnits(units)) == Some(units)
    ensures |HexUnits(units)| == 4 * |units|
  {
    if units != [] {
      assert units[0] in units;
      assert forall u :: u in units[1..] ==> u in units;
      ParseHexUnits(units[1..]);
      HexUnitsCons(units);
    }
  }

  /** The first unit's four digits in front of units that read back make units that read back. */
  lemma {:induction false} HexUnitsCons(units: seq<nat>)
    requires units != [] && units[0] < 0x10000
    requires ParseUnits(HexUnits(units[1..])) == Some(units[1..]) && |HexUnits(units[1..])| == 4 * |units[1..]|
    ensures ParseUnits(HexUnits(units)) == Some(units)
    ensures |HexUnits(units)| == 4 * |units|
  {
    var head := Padded(Format.Hex(units[0]));
    var tail := units[1..];
    assert |head| == 4 && Format.IsDigits(head, 16) && Format.FromBase(head, 16) == units[0] by {
      PaddedHex(units[0]);
    }
    assert HexUnits(units) == head + HexUnits(tail);
    ParseUnitsCons(head, HexUnits(tail), units[0], tail);
    assert [units[0]] + tail == units;
  }

  /** A group of four hex digits followed by groups that read back reads back with its value in front. */
  lemma {:induction false} ParseUnitsCons(head: string, tail: string, u: nat, rest: seq<nat>)
    requires |head| == 4 && Format.IsDigits(head, 16) && Format.FromBase(head, 16) == u
    requires ParseUnits(tail) == Some(rest)
    ensures ParseUnits(head + tail) == Some([u] + rest)
  {
    var h := head + tail;
    assert h[..4] == head;
    assert h[4..] == tail;
  }

  /**
   * The destination string of a mapping is hex digits in groups of four and
   * reads back, as UTF-16BE, as the glyph's Unicode string.
   */
  lemma {:induction false} UnicodeHexRoundTrip(u: string)
    ensures DecodeDestination(UnicodeHex(u)) == Some(u)
    ensures |UnicodeHex(u)| % 4 == 0
  {
    var units := Utf16(u);
    assert DecodeUtf16(units) == Some(u) && forall x :: x in units ==> x < 0x10000 by {
      Utf16RoundTrip(u);
    }
    assert ParseUnits(HexUnits(units)) == Some(units) && |HexUnits(units)| == 4 * |units| by {
      ParseHexUnits(units);
    }
    FourTimes(|units|);
  }

  lemma {:induction false} FourTimes(k: nat)
    ensures (4 * k) % 4 == 0
  {
  }

  /** The destination string as the source computes it, padded to four digits: see `LigatureMisread`. */
  function UnicodeHexAsWritten(u: string): string
  {
    Padded(if |u| == 1 then Format.Hex(u[0] as nat)
           else if |u| == 2 then Format.Hex(u[0] as nat) + Format.Hex(u[1] as nat)
           else "")
  }

  /** For a single character below 0x10000 the computation as written agrees with the UTF-16BE one. */
  lemma {:induction false} AsWrittenAgreesOnOneBmpCharacter(c: char)
    requires c as int < 0x10000
    ensures UnicodeHexAsWritten([c]) == UnicodeHex([c])
  {
    assert [c][1..] == [];
    assert Utf16([c]) == CodeUnits(c) + Utf16([]) == [c as int];
    assert HexUnits([c as int]) == Padded(Format.Hex(c as int)) + HexUnits([]);
  }

  /**
   * The ligature glyph `f_i` (Unicode string "fi") is mapped to `<6669>` as
   * written, which a reader decodes as the single character U+6669; the
   * UTF-16BE destination `<00660069>` decodes as "fi".
   */
  lemma {:induction false} LigatureMisread()
    ensures UnicodeHexAsWritten("fi") == "6669"
    ensures DecodeDestination("6669") == Some([0x6669 as char])
    ensures DecodeDestination(UnicodeHexAsWritten("fi")) != Some("fi")
    ensures UnicodeHex("fi") == "00660069" && DecodeDestination(UnicodeHex("fi")) == Some("fi")
  {
    HexOfLetters();
    DecodeSingleUnit();
    assert UnicodeHexAsWritten("fi") == Padded("66" + "69");
    assert [0x6669 as char] != "fi";
    EncodeLigature();
    UnicodeHexRoundTrip("fi");
  }

  lemma {:induction false} HexOfLetters()
    ensures Format.Hex('f' as nat) == "66" && Format.Hex('i' as nat) == "69"
  {
    assert Format.DigitChar(6) == '6' && Format.DigitChar(9) == '9';
    assert Format.ToBase(6, 16) == "6";
    assert 'f' as nat == 0x66 && 'i' as nat == 0x69;
    assert Format.Hex(0x66) == Format.ToBase(6, 16) + [Format.DigitChar(6)];
    assert Format.Hex(0x69) == Format.ToBase(6, 16) + [Format.DigitChar(9)];
  }

  lemma {:induction false} DecodeSingleUnit()
    ensures DecodeDestination("6669") == Some([0x6669 as char])
  {
    var h := "6669";
    assert Format.FromBase(h, 16) == 0x6669 by {
      assert h[..3] == "666" && "666"[..2] == "66" && "66"[..1] == "6" && "6"[..0] == "";
    }
    assert h[..4] == h && h[4..] == [];
    assert Format.DigitValue('6') == 6 && Format.DigitValue('9') == 9;
    assert Format.IsDigits(h[..4], 16);
    assert ParseUnits(h[4..]) == Some([]);
    var x := Format.FromBase(h[..4], 16);
    assert [x] + [] == [x];
    assert ParseUnits(h) == Some([x]);
    var units: seq<nat> := [0x6669];
    assert units[1..] == [];
    assert x == 0x6669 && [x] == units;
    assert DecodeUtf16(units) == Some([0x6669 as char] + []);
    assert [0x6669 as char] + [] == [0x6669 as char];
    assert DecodeDestination(h) == DecodeUtf16(units);
  }

  lemma {:induction false} EncodeLigature()
    ensures UnicodeHex("fi") == "00660069"
  {
    HexOfLetters();
    assert Utf16("fi") == [0x66, 0x69] by {
      assert "fi"[1..] == "i" && "i"[1..] == "";
    }
    assert Padded("66") == "0066" && Padded("69") == "0069";
    assert HexUnits([0x66, 0x69]) == "0066" + HexUnits([0x69]);
    assert HexUnits([0x69]) == "0069" + HexUnits([]);
  }

  // ----------------------------------------------------------------------
  // Mappings

  /** `(i_hex, g_hex)` for each glyph whose Unicode string is not empty, in glyph order. */
  function Pairs(glyphOrder: seq<string>, toUnicode: string -> string): seq<Pair>
  {
    if glyphOrder == [] then []
    else
      var i := |glyphOrder| - 1;
      var u := toUnicode(glyphOrder[i]);
      Pairs(glyphOrder[..i], toUnicode) + (if |u| == 0 then [] else [(Padded(Format.Hex(i)), UnicodeHex(u))])
  }

  /** The indices of the glyphs that have a Unicode string, in order. */
  function MappedGlyphs(glyphOrder: seq<string>, toUnicode: string -> string): seq<nat>
  {
    if glyphOrder == [] then []
    else
      var i := |glyphOrder| - 1;
      MappedGlyphs(glyphOrder[..i], toUnicode) + (if |toUnicode(glyphOrder[i])| == 0 then [] else [i])
  }

  /** The loop over the glyph order that collects the mappings; specified by the function `Pairs`. */
  method BuildPairs(glyphOrder: seq<string>, toUnicode: string -> string) returns (pairs: seq<Pair>)
    ensures pairs == Pairs(glyphOrder, toUnicode)
  {
    pairs := [];
    var i := 0;
    while i < |glyphOrder|
      invariant 0 <= i <= |glyphOrder| && pairs == Pairs(glyphOrder[..i], toUnicode)
    {
      PairsSnoc(glyphOrder, i, toUnicode);
      var u := toUnicode(glyphOrder[i]);
      if |u| == 0 {
        i := i + 1;
        continue;
      }
      var gHex := UnicodeHex(u);
      var iHex := PadHex(Format.Hex(i));
      pairs := pairs + [(iHex, gHex)];
      i := i + 1;
    }
    assert glyphOrder[..i] == glyphOrder;
  }

  lemma {:induction false} PairsSnoc(glyphOrder: seq<string>, i: nat, toUnicode: string -> string)
    requires i < |glyphOrder|
    ensures Pairs(glyphOrder[..i + 1], toUnicode) == Pairs(glyphOrder[..i], toUnicode) +
      (if |toUnicode(glyphOrder[i])| == 0 then [] else [(Padded(Format.Hex(i)), UnicodeHex(toUnicode(glyphOrder[i])))])
  {
    assert glyphOrder[..i + 1][..i] == glyphOrder[..i];
  }

  /**
   * The mapped glyphs are exactly those with a Unicode string, in increasing
   * order.
   */
  lemma {:induction false} MappedGlyphsSpec(glyphOrder: seq<string>, toUnicode: string -> string)
    ensures forall i: nat :: i in MappedGlyphs(glyphOrder, toUnicode) <==>
      i < |glyphOrder| && |toUnicode(glyphOrder[i])| > 0
    ensures forall j, k :: 0 <= j < k < |MappedGlyphs(glyphOrder, toUnicode)| ==>
      MappedGlyphs(glyphOrder, toUnicode)[j] < MappedGlyphs(glyphOrder, toUnicode)[k]
  {
    if glyphOrder != [] {
      var n := |glyphOrder| - 1;
      var init := glyphOrder[..n];
      MappedGlyphsSpec(init, toUnicode);
      var m := MappedGlyphs(init, toUnicode);
      var all := MappedGlyphs(glyphOrder, toUnicode);
      assert all == m + (if |toUnicode(glyphOrder[n])| == 0 then [] else [n]);
      forall i: nat
        ensures i in all <==> i < |glyphOrder| && |toUnicode(glyphOrder[i])| > 0
      {
        if i < n {
          assert init[i] == glyphOrder[i];
        }
      }
      forall j, k | 0 <= j < k < |all|
        ensures all[j] < all[k]
      {
        if k < |m| {
          assert all[j] == m[j] && all[k] == m[k];
        } else {
          assert all[j] == m[j] && m[j] in m;
        }
      }
    }
  }

  /**
   * There is one mapping per mapped glyph, in order: its source code reads
   * back as the glyph index (four digits when there are at most 0x10000
   * glyphs) and its destination decodes to the glyph's Unicode string.
   */
  lemma {:induction false} PairsSpec(glyphOrder: seq<string>, toUnicode: string -> string)
    ensures var pairs := Pairs(glyphOrder, toUnicode);
      var mapped := MappedGlyphs(glyphOrder, toUnicode);
      && |pairs| == |mapped|
      && (forall j :: 0 <= j < |mapped| ==> mapped[j] < |glyphOrder|)
      && (forall j :: 0 <= j < |pairs| ==>
            && Format.FromBase(pairs[j].0, 16) == mapped[j]
            && (|glyphOrder| <= 0x10000 ==> |pairs[j].0| == 4)
            && DecodeDestination(pairs[j].1) == Some(toUnicode(glyphOrder[mapped[j]])))
  {
    if glyphOrder != [] {
      var n := |glyphOrder| - 1;
      var init := glyphOrder[..n];
      var u := toUnicode(glyphOrder[n]);
      var p0, m0 := Pairs(init, toUnicode), MappedGlyphs(init, toUnicode);
      PairsSpec(init, toUnicode);
      var pairs := Pairs(glyphOrder, toUnicode);
      var mapped := MappedGlyphs(glyphOrder, toUnicode);
      assert pairs == p0 + (if |u| == 0 then [] else [(Padded(Format.Hex(n)), UnicodeHex(u))]);
      assert mapped == m0 + (if |u| == 0 then [] else [n]);
      forall j | 0 <= j < |p0|
        ensures mapped[j] < |glyphOrder|
        ensures Format.FromBase(pairs[j].0, 16) == mapped[j]
        ensures |glyphOrder| <= 0x10000 ==> |pairs[j].0| == 4
        ensures DecodeDestination(pairs[j].1) == Some(toUnicode(glyphOrder[mapped[j]]))
      {
        assert pairs[j] == p0[j] && mapped[j] == m0[j];
        assert init[m0[j]] == glyphOrder[m0[j]];
      }
      if |u| > 0 {
        var h := Padded(Format.Hex(n));
        assert pairs[|p0|] == (h, UnicodeHex(u)) && mapped[|p0|] == n;
        assert Format.FromBase(h, 16) == n && (n < 0x10000 ==> |h| == 4) by {
          PaddedHex(n);
        }
        assert DecodeDestination(UnicodeHex(u)) == Some(u) by {
          UnicodeHexRoundTrip(u);
        }
      }
    }
  }

  // ----------------------------------------------------------------------
  // Blocks

  /** The mappings cut into consecutive blocks of 100, the last one shorter. */
  function Chunks(pairs: seq<Pair>): seq<seq<Pair>>
    decreases |pairs|
  {
    if pairs == [] then []
    else if |pairs| <= 100 then [pairs]
    else [pairs[..100]] + Chunks(pairs[100..])
  }

  function Flatten(chunks: seq<seq<Pair>>): seq<Pair>
  {
    if chunks == [] then [] else chunks[0] + Flatten(chunks[1..])
  }

  /** One `bfchar` line: `<code> <destination>`. */
  function Line(p: Pair): string
  {
    "<" + p.0 + "> <" + p.1 + ">\n"
  }

  function Lines(ps: seq<Pair>): string
  {
    if ps == [] then "" else Lines(ps[..|ps| - 1]) + Line(ps[|ps| - 1])
  }

  /** A block: its entry count, `beginbfchar`, its lines, `endbfchar`. */
  function Block(chunk: seq<Pair>): string
  {
    Format.Decimal(|chunk|) + " beginbfchar\n" + Lines(chunk) + "endbfchar\n"
  }

  function Blocks(chunks: seq<seq<Pair>>): string
  {
    if chunks == [] then "" else Block(chunks[0]) + Blocks(chunks[1..])
  }

  /** The mappings from index `i` on, or none once `i` is past the end. */
  function From(pairs: seq<Pair>, i: nat): seq<Pair>
  {
    if i < |pairs| then pairs[i..] else []
  }

  /**
   * The block loop: for each start index 0, 100, 200, ... a header, the
   * lines of that block and its end; specified by the function `Blocks`.
   */
  method BuildBlocks(pairs: seq<Pair>) returns (content: string)
    ensures content == Blocks(Chunks(pairs))
  {
    content := "";
    var i := 0;
    assert pairs[0..] == pairs;
    while i < |pairs|
      invariant content + Blocks(Chunks(From(pairs, i))) == Blocks(Chunks(pairs))
      decreases |pairs| - i
    {
      var startIndex := i;
      var endIndex := if startIndex + 100 < |pairs| then startIndex + 100 else |pairs|;
      BlocksStep(content, pairs, startIndex, endIndex);
      content := AppendBlock(content, pairs, startIndex, endIndex);
      i := i + 100;
    }
    assert Chunks(From(pairs, i)) == [];
  }

  /** One block of the loop: the header with the entry count, one line per mapping, the end. */
  method AppendBlock(content: string, pairs: seq<Pair>, startIndex: nat, endIndex: nat) returns (r: string)
    requires startIndex <= endIndex <= |pairs|
    ensures r == content + Block(pairs[startIndex..endIndex])
  {
    var n := endIndex - startIndex;
    var header := content + Format.Decimal(n) + " beginbfchar\n";
    r := header;
    var j := startIndex;
    assert pairs[startIndex..j] == [];
    while j < endIndex
      invariant startIndex <= j <= endIndex
      invariant r == header + Lines(pairs[startIndex..j])
    {
      var line := "<" + pairs[j].0 + "> <" + pairs[j].1 + ">\n";
      LinesStep(header, pairs, startIndex, j, line);
      r := r + line;
      j := j + 1;
    }
    BlockSplit(content, pairs[startIndex..endIndex]);
    r := r + "endbfchar\n";
  }

  /** Appending the line of mapping `j` extends the lines of the block by one. */
  lemma {:induction false} LinesStep(header: string, pairs: seq<Pair>, startIndex: nat, j: nat, line: string)
    requires startIndex <= j < |pairs| && line == "<" + pairs[j].0 + "> <" + pairs[j].1 + ">\n"
    ensures header + Lines(pairs[startIndex..j]) + line == header + Lines(pairs[startIndex..j + 1])
  {
    assert pairs[startIndex..j + 1][..j - startIndex] == pairs[startIndex..j];
  }

  /** A block read as header, lines and end marker. */
  lemma {:induction false} BlockSplit(content: string, chunk: seq<Pair>)
    ensures content + Block(chunk)
         == content + Format.Decimal(|chunk|) + " beginbfchar\n" + Lines(chunk) + "endbfchar\n"
  {
    var d, b, l, e := Format.Decimal(|chunk|), " beginbfchar\n", Lines(chunk), "endbfchar\n";
    Associative(content, d + b + l, e);
    Associative(content, d + b, l);
    Associative(content, d, b);
  }

  lemma {:induction false} Associative(a: string, b: string, c: string)
    ensures a + (b + c) == a + b + c
  {
  }

  /** Appending the block at `i` to what precedes it leaves the blocks from `i + 100` to follow. */
  lemma {:induction false} BlocksStep(content: string, pairs: seq<Pair>, i: nat, end: nat)
    requires i < |pairs| && end == if i + 100 < |pairs| then i + 100 else |pairs|
    ensures content + Blocks(Chunks(From(pairs, i)))
         == (content + Block(pairs[i..end])) + Blocks(Chunks(From(pairs, i + 100)))
  {
    ChunksFrom(pairs, i, end);
  }

  lemma {:induction false} ChunksFrom(pairs: seq<Pair>, i: nat, end: nat)
    requires i < |pairs| && end == if i + 100 < |pairs| then i + 100 else |pairs|
    ensures Blocks(Chunks(From(pairs, i))) == Block(pairs[i..end]) + Blocks(Chunks(From(pairs, i + 100)))
  {
    var p := pairs[i..];
    if i + 100 < |pairs| {
      assert p[..100] == pairs[i..i + 100];
      assert p[100..] == pairs[i + 100..];
    } else {
      assert pairs[i..|pairs|] == p;
      assert Chunks(p) == [p];
      assert From(pairs, i + 100) == [];
      assert Blocks([p]) == Block(p) + Blocks([]);
    }
  }

  /**
   * The blocks hold the mappings in order, each between 1 and 100 of them,
   * every block but the last exactly 100.
   */
  lemma {:induction false} ChunksSpec(pairs: seq<Pair>)
    ensures Flatten(Chunks(pairs)) == pairs
    ensures forall k :: 0 <= k < |Chunks(pairs)| ==> 1 <= |Chunks(pairs)[k]| <= 100
    ensures forall k :: 0 <= k < |Chunks(pairs)| - 1 ==> |Chunks(pairs)[k]| == 100
    ensures |Chunks(pairs)| == (|pairs| + 99) / 100
    decreases |pairs|
  {
    if |pairs| > 100 {
      var rest := pairs[100..];
      ChunksSpec(rest);
      var c := Chunks(pairs);
      assert c[1..] == Chunks(rest);
      assert pairs[..100] + rest == pairs;
    } else if pairs != [] {
      assert Flatten([pairs]) == pairs + Flatten([]);
    }
  }
}

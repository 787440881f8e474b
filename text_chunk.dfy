/**
 * borb's `ChunkOfText` layout element: registering its font in a page's
 * `Resources/Font` dictionary, encoding its text as a text-showing operator
 * (an array of hexadecimal strings for `TJ`, or an escaped literal string for
 * `Tj`, sections 7.3.4.2, 7.3.4.3 and 9.4.3 of ISO 32000-1), and computing the
 * rectangle the laid-out text occupies.
 */
module TextChunk {
  import opened Wrappers
  import opened Geometry
  import Format
  import Dict

  /**
   * A font as this component sees it: a name and its character-identifier
   * mapping; a character that is not a key of `identifiers` has no identifier.
   */
  datatype Font = Font(fontName: string, identifiers: map<char, nat>)

  /** `font.unicode_to_character_identifier(c)`. */
  function CharacterIdentifier(font: Font, c: char): Option<nat>
  {
    if c in font.identifiers then Some(font.identifiers[c]) else None
  }

  // ----------------------------------------------------------------------
  // Font resources of a page

  /** The entries of a page's `Resources/Font` dictionary, in insertion order. */
  type FontTable = Dict.Entries<string, Font>

  /** `[k for k, v in t.items() if v == font]`. */
  function NamesOf(t: FontTable, font: Font): seq<string>
  {
    if t == [] then [] else (if t[0].1 == font then [t[0].0] else []) + NamesOf(t[1..], font)
  }

  /** `Name("F%d" % n)`. */
  function ResourceName(n: nat): string
  {
    "F" + Format.Decimal(n)
  }

  /** The table a page has before registration: an absent dictionary is an empty one. */
  function TableOf(fonts: Option<FontTable>): FontTable
  {
    if fonts.Some? then fonts.value else []
  }

  /**
   * Registering `font` in table `t`: the first name already bound to an equal
   * font and the unchanged table; otherwise `F(n+1)`, n the number of entries,
   * bound to the font.
   */
  function Register(t: FontTable, font: Font): (string, FontTable)
  {
    var names := NamesOf(t, font);
    if |names| > 0 then (names[0], t)
    else (ResourceName(|t| + 1), Dict.Put(t, ResourceName(|t| + 1), font))
  }

  /** Every name in table `t` is `F1`, `F2`, ... in order: the table registration alone builds. */
  predicate Canonical(t: FontTable)
  {
    forall i :: 0 <= i < |t| ==> t[i].0 == ResourceName(i + 1)
  }

  // ----------------------------------------------------------------------
  // Text-showing operators

  /** `unicode_to_character_identifier(c) or 0`. */
  function IdentifierOrZero(font: Font, c: char): nat
  {
    if c in font.identifiers then font.identifiers[c] else 0
  }

  /** The identifier sequence of `text`, the one the width is measured on. */
  function CharacterIdentifiers(text: string, font: Font): (ids: seq<nat>)
    ensures |ids| == |text|
  {
    seq(|text|, i requires 0 <= i < |text| => IdentifierOrZero(font, text[i]))
  }

  /** Some character's identifier differs from its code point, a missing identifier included. */
  predicate NeedsHex(text: string, font: Font)
  {
    exists i :: 0 <= i < |text| && CharacterIdentifier(font, text[i]) != Some(text[i] as nat)
  }

  /** Every character of `text` has an identifier in `font`. */
  predicate Representable(text: string, font: Font)
  {
    forall i :: 0 <= i < |text| ==> text[i] in font.identifiers
  }

  /** `hex(n)[2:]` with one `0` in front when its length is odd. */
  function EvenHex(n: nat): string
  {
    var h := Format.Hex(n);
    if |h| % 2 == 1 then "0" + h else h
  }

  /** `<hh>` for identifier `n`. */
  function HexGroup(n: nat): string
  {
    "<" + EvenHex(n) + ">"
  }

  /** The hex groups of `ids`, concatenated in order. */
  function HexGroups(ids: seq<nat>): string
  {
    if ids == [] then "" else HexGroups(ids[..|ids| - 1]) + HexGroup(ids[|ids| - 1])
  }

  /** The operator `_write_text_bytes` produces: hex mode when needed, literal mode otherwise. */
  function ShowTextOperator(text: string, font: Font): Option<string>
  {
    if NeedsHex(text, font) then HexOperator(text, font) else Some(LiteralOperator(text))
  }

  /** Hex mode: `[<..><..>] TJ`, or None (a failed assertion) when a character has no identifier. */
  function HexOperator(text: string, font: Font): Option<string>
  {
    if Representable(text, font) then Some("[" + HexGroups(CharacterIdentifiers(text, font)) + "] TJ")
    else None
  }

  /** The escape of one character in a literal string. */
  function EscapeChar(c: char): string
  {
    if c == '\r' then "\\r"
    else if c == '\n' then "\\n"
    else if c == '\t' then "\\t"
    else if c == '\U{8}' then "\\b"
    else if c == '\U{C}' then "\\f"
    else if c == '(' || c == ')' || c == '\\' then ['\\', c]
    else if c as int < 8 then "\\00" + Format.Octal(c as nat)
    else if c as int < 32 then "\\0" + Format.Octal(c as nat)
    else [c]
  }

  /** The escapes of the characters of `text`, concatenated in order. */
  function Escaped(text: string): string
  {
    if text == [] then "" else Escaped(text[..|text| - 1]) + EscapeChar(text[|text| - 1])
  }

  /** Literal mode: `(..) Tj`. */
  function LiteralOperator(text: string): string
  {
    "(" + Escaped(text) + ") Tj"
  }

  // ----------------------------------------------------------------------
  // Page and layout

  /** What one layout call appends to the page's content stream; colour and number formatting are left out. */
  datatype Fragment = TextFragment(resourceName: string, fontSize: real, x: real, y: real, showText: string)

  /** The rectangle the laid-out text occupies: top-aligned in `box`, `width` wide and `fontSize` high. */
  function LayoutRectangle(box: Rectangle, fontSize: real, width: real): Rectangle
  {
    Rectangle(box.x, box.y + box.height - fontSize, width, fontSize)
  }

  /** A page: whether it has a `Resources` dictionary, its `Resources/Font` entries, its content stream. */
  class Page {
    var hasResources: bool
    var fonts: Option<FontTable>
    var content: seq<Fragment>

    ghost predicate Valid()
      reads this
    {
      fonts.Some? ==> hasResources && Dict.UniqueKeys(fonts.value)
    }

    constructor ()
      ensures Valid() && !hasResources && fonts.None? && content == []
    {
      hasResources := false;
      fonts := None;
      content := [];
    }
  }

  class ChunkOfText {
    const text: string
    const font: Font
    const fontSize: real
    var boundingBox: Option<Rectangle>

    constructor (text: string, font: Font, fontSize: real)
      ensures this.text == text && this.font == font && this.fontSize == fontSize
      ensures boundingBox.None?
    {
      this.text := text;
      this.font := font;
      this.fontSize := fontSize;
      boundingBox := None;
    }

    /**
     * `_get_font_resource_name`: creates `Resources` and then `Resources/Font`
     * when absent, and registers `font` in the latter.
     */
    method GetFontResourceName(font: Font, page: Page) returns (name: string)
      requires page.Valid()
      modifies page
      ensures page.Valid() && page.hasResources && page.fonts.Some?
      ensures (name, page.fonts.value) == Register(TableOf(old(page.fonts)), font)
      ensures page.content == old(page.content)
    {
      if !page.hasResources {
        page.hasResources := true;
      }
      if page.fonts.None? {
        page.fonts := Some([]);
      }
      var table := page.fonts.value;
      var names: seq<string> := [];
      var i := 0;
      while i < |table|
        invariant 0 <= i <= |table|
        invariant names == NamesOf(table[..i], font)
        invariant page.hasResources && page.fonts == Some(table)
        invariant page.content == old(page.content)
      {
        NamesOfSnoc(table[..i], table[i], font);
        assert table[..i + 1] == table[..i] + [table[i]];
        if table[i].1 == font {
          names := names + [table[i].0];
        }
        i := i + 1;
      }
      assert table[..i] == table;
      if |names| > 0 {
        name := names[0];
      } else {
        name := ResourceName(|table| + 1);
        page.fonts := Some(Dict.Put(table, name, font));
        Dict.PutKeepsKeysUnique(table, name, font);
      }
    }

    /** `_write_text_bytes`: hex mode exactly when some identifier differs from its code point. */
    method WriteTextBytes() returns (r: Option<string>)
      ensures r == ShowTextOperator(text, font)
    {
      var hexMode := false;
      var i := 0;
      while i < |text|
        invariant 0 <= i <= |text|
        invariant forall j :: 0 <= j < i ==> CharacterIdentifier(font, text[j]) == Some(text[j] as nat)
      {
        if CharacterIdentifier(font, text[i]) != Some(text[i] as nat) {
          hexMode := true;
          break;
        }
        i := i + 1;
      }
      if hexMode {
        r := WriteTextBytesInHex();
      } else {
        var s := WriteTextBytesInAscii();
        r := Some(s);
      }
    }

    /** `_write_text_bytes_in_hex`: one `<hh>` group per character, or None at the first character without identifier. */
    method WriteTextBytesInHex() returns (r: Option<string>)
      ensures r == HexOperator(text, font)
    {
      var out := "";
      var i := 0;
      while i < |text|
        invariant 0 <= i <= |text|
        invariant HexPrefix(text, i, font, out)
      {
        var c := text[i];
        if c !in font.identifiers {
          assert HexOperator(text, font) == None by {
            assert text[i] !in font.identifiers;
          }
          return None;
        }
        var cid := font.identifiers[c];
        var hexRep := Format.Hex(cid);
        if |hexRep| % 2 == 1 {
          hexRep := "0" + hexRep;
        }
        HexStep(text, i, font, out, hexRep);
        out := out + "<" + hexRep + ">";
        i := i + 1;
      }
      HexDone(text, font, out);
      r := Some("[" + out + "] TJ");
    }

    /** `_write_text_bytes_in_ascii`: the escaped characters, in order, as a literal string. */
    method WriteTextBytesInAscii() returns (r: string)
      ensures r == LiteralOperator(text)
    {
      var out := "";
      var i := 0;
      while i < |text|
        invariant 0 <= i <= |text|
        invariant out == Escaped(text[..i])
      {
        var c := text[i];
        assert text[..i + 1][..i] == text[..i];
        if c == '\r' {
          out := out + "\\r";
        } else if c == '\n' {
          out := out + "\\n";
        } else if c == '\t' {
          out := out + "\\t";
        } else if c == '\U{8}' {
          out := out + "\\b";
        } else if c == '\U{C}' {
          out := out + "\\f";
        } else if c == '(' || c == ')' || c == '\\' {
          out := out + ['\\', c];
        } else if 0 <= c as int < 8 {
          out := out + "\\00" + Format.Octal(c as nat);
        } else if 8 <= c as int < 32 {
          out := out + "\\0" + Format.Octal(c as nat);
        } else {
          out := out + [c];
        }
        i := i + 1;
      }
      assert text[..i] == text;
      r := "(" + out + ") Tj";
    }

    /**
     * `_do_layout_without_padding`: registers the font, then encodes the text.
     * When encoding fails the page keeps the registration but gets no content
     * and the result is None; otherwise exactly one fragment is appended and
     * the stored bounding box is the returned rectangle.
     */
    method DoLayoutWithoutPadding(page: Page, box: Rectangle, widthOf: (seq<nat>, Font, real) -> real)
      returns (r: Option<Rectangle>)
      requires page.Valid()
      modifies this, page
      ensures page.Valid() && page.fonts.Some?
      ensures var (name, table) := Register(TableOf(old(page.fonts)), font);
        page.fonts.value == table &&
        match ShowTextOperator(text, font)
        case None =>
          r.None? && page.content == old(page.content) && boundingBox == old(boundingBox)
        case Some(op) =>
          var rect := LayoutRectangle(box, fontSize, widthOf(CharacterIdentifiers(text, font), font, fontSize));
          && page.content == old(page.content) + [TextFragment(name, fontSize, rect.x, rect.y, op)]
          && r == Some(rect)
          && boundingBox == r
    {
      var name := GetFontResourceName(font, page);
      var op := WriteTextBytes();
      if op.None? {
        return None;
      }
      var rect := LayoutRectangle(box, fontSize, widthOf(CharacterIdentifiers(text, font), font, fontSize));
      page.content := page.content + [TextFragment(name, fontSize, rect.x, rect.y, op.value)];
      boundingBox := Some(rect);
      r := Some(rect);
    }
  }

  // ----------------------------------------------------------------------
  // Lemmas: registration

  lemma {:induction false} NamesOfSnoc(t: FontTable, e: (string, Font), font: Font)
    ensures NamesOf(t + [e], font) == NamesOf(t, font) + (if e.1 == font then [e.0] else [])
  {
    if t != [] {
      assert (t + [e])[1..] == t[1..] + [e];
      NamesOfSnoc(t[1..], e, font);
    }
  }

  /**
   * The names bound to `font` are found exactly when some entry holds an
   * equal font, and the first of them belongs to the first such entry.
   */
  lemma {:induction false} NamesOfFirst(t: FontTable, font: Font)
    ensures |NamesOf(t, font)| == 0 <==> forall i :: 0 <= i < |t| ==> t[i].1 != font
    ensures |NamesOf(t, font)| > 0 ==>
      exists i :: 0 <= i < |t| && t[i] == (NamesOf(t, font)[0], font) &&
        forall j :: 0 <= j < i ==> t[j].1 != font
  {
    if t != [] {
      NamesOfFirst(t[1..], font);
      if t[0].1 != font && |NamesOf(t, font)| > 0 {
        var i :| 0 <= i < |t| - 1 && t[1..][i] == (NamesOf(t[1..], font)[0], font) &&
          forall j :: 0 <= j < i ==> t[1..][j].1 != font;
        assert t[i + 1] == (NamesOf(t, font)[0], font);
      }
      if |NamesOf(t, font)| == 0 {
        forall i | 0 <= i < |t| ensures t[i].1 != font {
          if i > 0 { assert t[i] == t[1..][i - 1]; }
        }
      }
    }
  }

  /** With no equal font in the table, `Put` of the fresh name yields exactly one name bound to it. */
  lemma {:induction false} NamesOfPut(t: FontTable, name: string, font: Font)
    requires forall i :: 0 <= i < |t| ==> t[i].1 != font
    ensures NamesOf(Dict.Put(t, name, font), font) == [name]
  {
    if t == [] {
    } else if t[0].0 == name {
      NamesOfFirst(t[1..], font);
      assert Dict.Put(t, name, font)[1..] == t[1..];
    } else {
      NamesOfPut(t[1..], name, font);
      assert Dict.Put(t, name, font)[1..] == Dict.Put(t[1..], name, font);
    }
  }

  /**
   * Registration returns a name that the table afterwards binds to the font,
   * and keeps the names unique. When an equal font is present, the table is
   * unchanged and the name is the key of its first occurrence; otherwise the
   * name is `F(n+1)`, n the number of entries before the call.
   */
  lemma {:induction false} RegisterSpec(t: FontTable, font: Font)
    requires Dict.UniqueKeys(t)
    ensures Dict.Lookup(Register(t, font).1, Register(t, font).0) == Some(font)
    ensures Dict.UniqueKeys(Register(t, font).1)
    ensures (exists i :: 0 <= i < |t| && t[i].1 == font) ==>
      Register(t, font).1 == t &&
      exists i :: 0 <= i < |t| && t[i] == (Register(t, font).0, font) &&
        forall j :: 0 <= j < i ==> t[j].1 != font
    ensures (forall i :: 0 <= i < |t| ==> t[i].1 != font) ==>
      Register(t, font).0 == ResourceName(|t| + 1)
    ensures forall k :: k != Register(t, font).0 ==> Dict.Lookup(Register(t, font).1, k) == Dict.Lookup(t, k)
  {
    NamesOfFirst(t, font);
    if |NamesOf(t, font)| > 0 {
      var i :| 0 <= i < |t| && t[i] == (NamesOf(t, font)[0], font);
      Dict.LookupUnique(t, i);
    } else {
      var name := ResourceName(|t| + 1);
      Dict.LookupPut(t, name, font);
      Dict.PutKeepsKeysUnique(t, name, font);
      forall k | k != name
        ensures Dict.Lookup(Dict.Put(t, name, font), k) == Dict.Lookup(t, k)
      {
        Dict.LookupPutOther(t, name, font, k);
      }
    }
  }

  /** Registering the same font a second time returns the same name and changes nothing. */
  lemma {:induction false} RegisterIdempotent(t: FontTable, font: Font)
    ensures Register(Register(t, font).1, font) == Register(t, font)
  {
    NamesOfFirst(t, font);
    if |NamesOf(t, font)| == 0 {
      NamesOfPut(t, ResourceName(|t| + 1), font);
    }
  }

  /**
   * On a table built by registration alone (`F1`..`Fn` in order), a new font
   * is appended under `F(n+1)` and the table stays of that form.
   */
  lemma {:induction false} RegisterCanonical(t: FontTable, font: Font)
    requires Canonical(t)
    requires forall i :: 0 <= i < |t| ==> t[i].1 != font
    ensures Register(t, font) == (ResourceName(|t| + 1), t + [(ResourceName(|t| + 1), font)])
    ensures Canonical(Register(t, font).1)
  {
    NamesOfFirst(t, font);
    forall i | 0 <= i < |t| ensures t[i].0 != ResourceName(|t| + 1) {
      Format.DecimalInjective(i + 1, |t| + 1);
      assert t[i].0[1..] == Format.Decimal(i + 1);
    }
    Dict.PutAbsent(t, ResourceName(|t| + 1), font);
  }

  /** Two distinct fonts registered on a fresh page get `F1` and then `F2`. */
  lemma {:induction false} RegisterTwoFonts(a: Font, b: Font)
    requires a != b
    ensures Register([], a).0 == "F1"
    ensures Register(Register([], a).1, b).0 == "F2"
  {
    RegisterCanonical([], a);
    RegisterCanonical(Register([], a).1, b);
    assert Format.Decimal(1) == "1";
    assert Format.Decimal(2) == "2";
  }

  // ----------------------------------------------------------------------
  // Lemmas: hex mode

  lemma {:induction false} IdentifiersSnoc(text: string, i: nat, font: Font)
    requires i < |text|
    ensures CharacterIdentifiers(text[..i + 1], font) ==
      CharacterIdentifiers(text[..i], font) + [IdentifierOrZero(font, text[i])]
    ensures Representable(text[..i], font) && text[i] in font.identifiers ==> Representable(text[..i + 1], font)
  {
  }

  /** The first `i` characters all have identifiers and `out` holds their groups. */
  predicate HexPrefix(text: string, i: nat, font: Font, out: string)
  {
    i <= |text| && Representable(text[..i], font) && out == HexGroups(CharacterIdentifiers(text[..i], font))
  }

  /** Writing the group of character `i` extends the groups of the characters before it. */
  lemma {:induction false} HexStep(text: string, i: nat, font: Font, out: string, hexRep: string)
    requires i < |text| && text[i] in font.identifiers && HexPrefix(text, i, font, out)
    requires hexRep == var h := Format.Hex(font.identifiers[text[i]]); if |h| % 2 == 1 then "0" + h else h
    ensures HexPrefix(text, i + 1, font, out + "<" + hexRep + ">")
  {
    IdentifiersSnoc(text, i, font);
    HexGroupsSnoc(CharacterIdentifiers(text[..i], font), font.identifiers[text[i]]);
  }

  /** Once every character is written, `out` holds the groups of the whole text. */
  lemma {:induction false} HexDone(text: string, font: Font, out: string)
    requires HexPrefix(text, |text|, font, out)
    ensures HexOperator(text, font) == Some("[" + out + "] TJ")
  {
    assert text[..|text|] == text;
  }

  lemma {:induction false} HexGroupsSnoc(ids: seq<nat>, n: nat)
    ensures HexGroups(ids + [n]) == HexGroups(ids) + "<" + EvenHex(n) + ">"
  {
    assert (ids + [n])[..|ids|] == ids;
  }

  /** Each hex group has an even number of digits, at least two, that read back as the identifier. */
  lemma {:induction false} EvenHexSpec(n: nat)
    ensures |EvenHex(n)| % 2 == 0 && |EvenHex(n)| >= 2
    ensures Format.IsDigits(EvenHex(n), 16)
    ensures Format.FromBase(EvenHex(n), 16) == n
  {
    var h := Format.Hex(n);
    assert |h| > 0 && Format.IsDigits(h, 16) && Format.FromBase(h, 16) == n by {
      Format.FromBaseToBase(n, 16);
      Format.ToBaseDigits(n, 16);
    }
    PadToEven(h);
  }

  /** A '0' in front of an odd-length digit string makes its length even without changing its value. */
  lemma {:induction false} PadToEven(h: string)
    requires |h| > 0 && Format.IsDigits(h, 16)
    ensures var e := if |h| % 2 == 1 then "0" + h else h;
      |e| % 2 == 0 && |e| >= 2 && Format.IsDigits(e, 16) && Format.FromBase(e, 16) == Format.FromBase(h, 16)
  {
    if |h| % 2 == 1 {
      assert "0" + h == Format.Zeros(1) + h;
      Format.FromBaseZeros(1, h, 16);
      OddPlusOne(|h|);
    }
  }

  lemma {:induction false} OddPlusOne(k: nat)
    requires k % 2 == 1
    ensures (k + 1) % 2 == 0 && k + 1 >= 2
  {
  }

  /** The first index at or after `from` holding `c`, or `|s|` when there is none. */
  function IndexOf(s: string, c: char, from: nat): (k: nat)
    requires from <= |s|
    ensures from <= k <= |s|
    ensures forall j :: from <= j < k ==> s[j] != c
    ensures k < |s| ==> s[k] == c
    decreases |s| - from
  {
    if from == |s| then |s| else if s[from] == c then from else IndexOf(s, c, from + 1)
  }

  /** Reads a sequence of `<hh>` groups back into identifiers. */
  function ParseHexGroups(s: string): Option<seq<nat>>
    decreases |s|
  {
    if s == [] then Some([])
    else if s[0] != '<' then None
    else
      var k := IndexOf(s, '>', 1);
      if k == |s| || k == 1 || !Format.IsDigits(s[1..k], 16) then None
      else match ParseHexGroups(s[k + 1..])
        case None => None
        case Some(rest) => Some([Format.FromBase(s[1..k], 16)] + rest)
  }

  lemma {:induction false} HexGroupsCons(ids: seq<nat>)
    requires ids != []
    ensures HexGroups(ids) == HexGroup(ids[0]) + HexGroups(ids[1..])
    decreases |ids|
  {
    if |ids| > 1 {
      HexGroupsCons(ids[..|ids| - 1]);
      assert ids[..|ids| - 1][1..] == ids[1..][..|ids[1..]| - 1];
      assert ids[..|ids| - 1][0] == ids[0];
    } else {
      assert ids[..0] == [];
    }
  }

  lemma {:induction false} ParseHexGroup(n: nat, rest: string)
    ensures ParseHexGroups(HexGroup(n) + rest) ==
      match ParseHexGroups(rest) case None => None case Some(ids) => Some([n] + ids)
  {
    var h := EvenHex(n);
    assert |h| > 0 && Format.IsDigits(h, 16) && Format.FromBase(h, 16) == n by {
      EvenHexSpec(n);
    }
    ParseDigitsGroup(h, rest);
  }

  /** `<digits>` in front of more text reads as the digits' value in front of what that text reads as. */
  lemma {:induction false} ParseDigitsGroup(h: string, rest: string)
    requires |h| > 0 && Format.IsDigits(h, 16)
    ensures ParseHexGroups("<" + h + ">" + rest) ==
      match ParseHexGroups(rest) case None => None case Some(ids) => Some([Format.FromBase(h, 16)] + ids)
  {
    var s := "<" + h + ">" + rest;
    assert s[1..|h| + 1] == h;
    assert s[|h| + 1] == '>';
    assert forall j :: 1 <= j < |h| + 1 ==> s[j] == h[j - 1] && s[j] != '>' by {
      forall j | 1 <= j < |h| + 1
        ensures s[j] == h[j - 1] && s[j] != '>'
      {
        assert Format.DigitValue(h[j - 1]) < 16;
      }
    }
    assert IndexOf(s, '>', 1) == |h| + 1;
    assert s[|h| + 2..] == rest;
  }

  /** Reading the hex groups back yields the identifiers they were written from. */
  lemma {:induction false} HexGroupsRoundTrip(ids: seq<nat>)
    ensures ParseHexGroups(HexGroups(ids)) == Some(ids)
    decreases |ids|
  {
    if ids != [] {
      HexGroupsCons(ids);
      HexGroupsRoundTrip(ids[1..]);
      ParseHexGroup(ids[0], HexGroups(ids[1..]));
      assert [ids[0]] + ids[1..] == ids;
    }
  }

  // ----------------------------------------------------------------------
  // Lemmas: literal mode

  /** The number of octal digits at the front of `s` from index `k`, at most three in all. */
  function OctalRun(s: string, k: nat): (r: nat)
    requires k <= 3
    ensures k <= r <= 3
    ensures r <= |s| || r == k
    decreases 3 - k
  {
    if k == 3 || k >= |s| || !('0' <= s[k] <= '7') then k else OctalRun(s, k + 1)
  }

  /**
   * Reading a literal string's body back, per Table 3 of ISO 32000-1: the
   * escapes `\n \r \t \b \f \( \) \\`, one to three octal digits (high-order
   * overflow ignored), a backslash before an end-of-line continues the line,
   * and a backslash before any other character is ignored.
   */
  function Unescape(s: string): string
    decreases |s|
  {
    if s == [] then []
    else if s[0] != '\\' then [s[0]] + Unescape(s[1..])
    else if |s| == 1 then []
    else
      var d := s[1];
      if d == 'n' then "\n" + Unescape(s[2..])
      else if d == 'r' then "\r" + Unescape(s[2..])
      else if d == 't' then "\t" + Unescape(s[2..])
      else if d == 'b' then "\U{8}" + Unescape(s[2..])
      else if d == 'f' then "\U{C}" + Unescape(s[2..])
      else if '0' <= d <= '7' then
        var k := OctalRun(s[1..], 1);
        [(Format.FromBase(s[1..k + 1], 8) % 256) as char] + Unescape(s[k + 1..])
      else if d == '\n' then Unescape(s[2..])
      else if d == '\r' then (if |s| > 2 && s[2] == '\n' then Unescape(s[3..]) else Unescape(s[2..]))
      else [d] + Unescape(s[2..])
  }

  /**
   * A control character without a named escape becomes a backslash and
   * exactly three octal digits whose value is its code point.
   */
  lemma {:induction false} EscapeControl(c: char)
    requires c as int < 32 && c !in "\r\n\t\U{8}\U{C}"
    ensures |EscapeChar(c)| == 4 && EscapeChar(c)[0] == '\\'
    ensures Format.IsDigits(EscapeChar(c)[1..], 8)
    ensures Format.FromBase(EscapeChar(c)[1..], 8) == c as int
  {
    var n := c as nat;
    Format.OctalLength(n);
    Format.FromBaseToBase(n, 8);
    Format.ToBaseDigits(n, 8);
    if n < 8 {
      assert EscapeChar(c)[1..] == Format.Zeros(2) + Format.Octal(n);
      Format.FromBaseZeros(2, Format.Octal(n), 8);
    } else {
      assert EscapeChar(c)[1..] == Format.Zeros(1) + Format.Octal(n);
      Format.FromBaseZeros(1, Format.Octal(n), 8);
    }
  }

  /** Every character outside the escape table is copied unchanged. */
  lemma {:induction false} EscapePlain(c: char)
    requires c as int >= 32 && c !in "()\\"
    ensures EscapeChar(c) == [c]
  {
  }

  lemma {:induction false} EscapedCons(text: string)
    requires text != []
    ensures Escaped(text) == EscapeChar(text[0]) + Escaped(text[1..])
    decreases |text|
  {
    if |text| > 1 {
      EscapedCons(text[..|text| - 1]);
      assert text[..|text| - 1][1..] == text[1..][..|text[1..]| - 1];
    } else {
      assert text[..0] == [];
    }
  }

  lemma {:induction false} UnescapeChar(c: char, rest: string)
    ensures Unescape(EscapeChar(c) + rest) == [c] + Unescape(rest)
  {
    if c as int < 32 && c !in "\r\n\t\U{8}\U{C}" {
      UnescapeControl(c, rest);
    } else if c == '(' || c == ')' || c == '\\' || c in "\r\n\t\U{8}\U{C}" {
      UnescapeNamed(c, rest);
    } else {
      var s := EscapeChar(c) + rest;
      assert s[0] == c && s[1..] == rest;
    }
  }

  /** A control character's three-digit octal escape reads back as the character. */
  lemma {:induction false} UnescapeControl(c: char, rest: string)
    requires c as int < 32 && c !in "\r\n\t\U{8}\U{C}"
    ensures Unescape(EscapeChar(c) + rest) == [c] + Unescape(rest)
  {
    var s := EscapeChar(c) + rest;
    var e := EscapeChar(c);
    assert |e| == 4 && e[0] == '\\' && Format.IsDigits(e[1..], 8) && Format.FromBase(e[1..], 8) == c as int by {
      EscapeControl(c);
    }
    assert s[0] == '\\' && s[1..4] == e[1..] && s[4..] == rest;
    var v := Format.FromBase(e[1..], 8);
    assert Unescape(s) == [(v % 256) as char] + Unescape(rest) by {
      UnescapeOctal(s);
    }
    assert (v % 256) as char == c;
  }

  /** A backslash and three octal digits read as one character, the digits' value modulo 256. */
  lemma {:induction false} UnescapeOctal(s: string)
    requires |s| >= 4 && s[0] == '\\' && Format.IsDigits(s[1..4], 8)
    ensures Unescape(s) == [(Format.FromBase(s[1..4], 8) % 256) as char] + Unescape(s[4..])
  {
    assert '0' <= s[1] <= '7' && '0' <= s[2] <= '7' && '0' <= s[3] <= '7' by {
      assert s[1..4][0] == s[1] && s[1..4][1] == s[2] && s[1..4][2] == s[3];
      OctalDigit(s[1]);
      OctalDigit(s[2]);
      OctalDigit(s[3]);
    }
    assert OctalRun(s[1..], 1) == 3;
  }

  lemma {:induction false} OctalDigit(c: char)
    requires Format.DigitValue(c) < 8
    ensures '0' <= c <= '7'
  {
  }

  /** A two-character escape reads back as the character it stands for. */
  lemma {:induction false} UnescapeNamed(c: char, rest: string)
    requires c == '(' || c == ')' || c == '\\' || c in "\r\n\t\U{8}\U{C}"
    ensures Unescape(EscapeChar(c) + rest) == [c] + Unescape(rest)
  {
    var s := EscapeChar(c) + rest;
    assert |EscapeChar(c)| == 2 && s[0] == '\\';
    assert s[2..] == rest;
  }

  /** Reading an escaped literal string gives back exactly the original text. */
  lemma {:induction false} UnescapeEscaped(text: string)
    ensures Unescape(Escaped(text)) == text
    decreases |text|
  {
    if text != [] {
      EscapedCons(text);
      UnescapeChar(text[0], Escaped(text[1..]));
      UnescapeEscaped(text[1..]);
      assert [text[0]] + text[1..] == text;
    }
  }

  // ----------------------------------------------------------------------
  // Lemmas: both modes

  /** The code points of a string. */
  function CodePoints(s: string): (r: seq<nat>)
    ensures |r| == |s|
  {
    seq(|s|, i requires 0 <= i < |s| => s[i] as nat)
  }

  /** What a PDF reader recovers from a show-text operator: the identifiers it selects. */
  function DecodeShowText(op: string): Option<seq<nat>>
  {
    if |op| < 5 then None
    else if op[0] == '[' && op[|op| - 4..] == "] TJ" then ParseHexGroups(op[1..|op| - 4])
    else if op[0] == '(' && op[|op| - 4..] == ") Tj" then Some(CodePoints(Unescape(op[1..|op| - 4])))
    else None
  }

  /**
   * Hex mode is chosen exactly when some character's identifier differs from
   * its code point (a missing one included); in literal mode every identifier
   * is its character's code point.
   */
  lemma {:induction false} ModeSelection(text: string, font: Font)
    ensures NeedsHex(text, font) ==> ShowTextOperator(text, font) == HexOperator(text, font)
    ensures !NeedsHex(text, font) ==>
      ShowTextOperator(text, font) == Some(LiteralOperator(text)) &&
      CharacterIdentifiers(text, font) == CodePoints(text)
  {
  }

  /**
   * The operator and the width are derived from one identifier sequence: what
   * the written operator selects, read back, is exactly the sequence the
   * layout measures. Encoding fails only in hex mode and only when some
   * character has no identifier.
   */
  lemma {:induction false} ShowTextDecodesToMeasuredIdentifiers(text: string, font: Font)
    ensures ShowTextOperator(text, font).None? <==> NeedsHex(text, font) && !Representable(text, font)
    ensures ShowTextOperator(text, font).Some? ==>
      DecodeShowText(ShowTextOperator(text, font).value) == Some(CharacterIdentifiers(text, font))
  {
    if NeedsHex(text, font) {
      if Representable(text, font) {
        HexOperatorDecodes(CharacterIdentifiers(text, font));
      }
    } else {
      LiteralOperatorDecodes(text);
      LiteralIdentifiers(text, font);
    }
  }

  /** A hex-mode operator reads back as the identifiers it was written from. */
  lemma {:induction false} HexOperatorDecodes(ids: seq<nat>)
    ensures DecodeShowText("[" + HexGroups(ids) + "] TJ") == Some(ids)
  {
    var op := "[" + HexGroups(ids) + "] TJ";
    HexGroupsRoundTrip(ids);
    assert op[1..|op| - 4] == HexGroups(ids);
    assert op[|op| - 4..] == "] TJ";
  }

  /** A literal-mode operator reads back as the code points of the text. */
  lemma {:induction false} LiteralOperatorDecodes(text: string)
    ensures DecodeShowText(LiteralOperator(text)) == Some(CodePoints(text))
  {
    var op := LiteralOperator(text);
    UnescapeEscaped(text);
    assert op[1..|op| - 4] == Escaped(text);
    assert op[|op| - 4..] == ") Tj";
  }

  /** When no identifier differs from its code point, the identifiers are the code points. */
  lemma {:induction false} LiteralIdentifiers(text: string, font: Font)
    requires !NeedsHex(text, font)
    ensures CharacterIdentifiers(text, font) == CodePoints(text)
  {
    forall i | 0 <= i < |text|
      ensures CharacterIdentifiers(text, font)[i] == CodePoints(text)[i]
    {
      assert CharacterIdentifier(font, text[i]) == Some(text[i] as nat);
    }
  }

  /** The layout rectangle sits at the box's left edge, its top on the box's top edge. */
  lemma {:induction false} LayoutRectangleTopAligned(box: Rectangle, fontSize: real, width: real)
    ensures LayoutRectangle(box, fontSize, width).x == box.x
    ensures LayoutRectangle(box, fontSize, width).y + LayoutRectangle(box, fontSize, width).height
      == box.y + box.height
    ensures LayoutRectangle(box, fontSize, width).height == fontSize
  {
  }
}

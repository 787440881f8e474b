/**
 * Building the PDF font for a TrueType font program (sections 9.6.3 and 9.7
 * of ISO 32000-1): the font program itself is not read here; its glyph
 * order, best Unicode cmap, `name` table records and file bytes are inputs,
 * and so are the per-glyph advance widths, the per-glyph Unicode strings and
 * the compressor.
 *
 * A font whose cmap reaches fewer than 256 glyphs becomes a simple TrueType
 * font whose codes 0, 1, 2, ... select those glyphs through a `Differences`
 * array; a larger one becomes a Type0 font with an Identity-H encoding and a
 * ToUnicode CMap.
 */
module TrueTypeFont {
  import opened Wrappers
  import Dict
  import ToUnicodeCmap
  import opened Sequences

  type Byte = b: int | 0 <= b < 256

  /** A record of the font's `name` table. */
  datatype NameRecord = NameRecord(platformID: nat, platEncID: nat, nameID: nat, bytes: seq<Byte>)

  /**
   * What is read from the font file. `cmap` lists the (code point, glyph
   * name) items of the best Unicode cmap; `windowsUnicodeCmap` says whether
   * the `cmap` table also has a platform 3, encoding 1 subtable, which the
   * Type0 path fetches on its own.
   */
  datatype FontProgram = FontProgram(fileBytes: seq<Byte>, cmap: Option<seq<(nat, string)>>, glyphOrder: seq<string>,
                                     names: seq<NameRecord>, windowsUnicodeCmap: bool)

  /**
   * The assertion or lookup that fails; `NoWindowsUnicodeCmap` is the
   * attribute access on the None that `getcmap(3, 1)` returns without such a
   * subtable.
   */
  datatype Error = EmptyFontFile | NoUnicodeCmap | NoPostScriptName | NoWindowsUnicodeCmap

  /** The values stored in the streams built here. */
  datatype PdfValue = PdfName(name: string) | PdfNumber(number: int) | PdfBytes(bytes: seq<Byte>) | PdfText(text: string)

  type Stream = Dict.Entries<string, PdfValue>

  // ----------------------------------------------------------------------
  // Reverse cmap and glyph order

  /** The glyph names the cmap maps some code point to. */
  function GlyphNames(cmap: seq<(nat, string)>): set<string>
  {
    set e | e in cmap :: e.1
  }

  /**
   * The loop that inverts the cmap: each glyph name reached by the cmap is
   * mapped to the smallest code point that reaches it.
   */
  method BuildReverseCmap(cmap: seq<(nat, string)>) returns (reverse: map<string, nat>)
    ensures reverse.Keys == GlyphNames(cmap)
    ensures forall g :: g in reverse ==> (reverse[g], g) in cmap
    ensures forall c, g :: (c, g) in cmap ==> g in reverse && reverse[g] <= c
  {
    reverse := map[];
    var i := 0;
    while i < |cmap|
      invariant 0 <= i <= |cmap|
      invariant reverse.Keys == GlyphNames(cmap[..i])
      invariant forall g :: g in reverse ==> (reverse[g], g) in cmap[..i]
      invariant forall c, g :: (c, g) in cmap[..i] ==> g in reverse && reverse[g] <= c
    {
      var (k, v) := cmap[i];
      assert cmap[..i + 1] == cmap[..i] + [cmap[i]];
      assert GlyphNames(cmap[..i + 1]) == GlyphNames(cmap[..i]) + {v};
      if v in reverse {
        reverse := reverse[v := if reverse[v] <= k then reverse[v] else k];
      } else {
        reverse := reverse[v := k];
      }
      i := i + 1;
    }
    assert cmap[..i] == cmap;
  }

  /** The glyph order restricted to the names in `mapped`, order kept. */
  function FilterGlyphOrder(glyphOrder: seq<string>, mapped: set<string>): seq<string>
  {
    if glyphOrder == [] then []
    else (if glyphOrder[0] in mapped then [glyphOrder[0]] else []) + FilterGlyphOrder(glyphOrder[1..], mapped)
  }

  /**
   * The filtered glyph order keeps, in order, exactly the glyphs the cmap
   * reaches, each as often as the glyph order lists it.
   */
  lemma {:induction false} FilterGlyphOrderSpec(glyphOrder: seq<string>, mapped: set<string>)
    ensures forall g :: g in FilterGlyphOrder(glyphOrder, mapped) <==> g in glyphOrder && g in mapped
    ensures forall g :: multiset(FilterGlyphOrder(glyphOrder, mapped))[g] == if g in mapped then multiset(glyphOrder)[g] else 0
    ensures IsSubsequence(FilterGlyphOrder(glyphOrder, mapped), glyphOrder)
  {
    if glyphOrder != [] {
      var rest := FilterGlyphOrder(glyphOrder[1..], mapped);
      FilterGlyphOrderSpec(glyphOrder[1..], mapped);
      assert glyphOrder == [glyphOrder[0]] + glyphOrder[1..];
      assert multiset(glyphOrder) == multiset{glyphOrder[0]} + multiset(glyphOrder[1..]);
      if glyphOrder[0] in mapped {
        assert FilterGlyphOrder(glyphOrder, mapped) == [glyphOrder[0]] + rest;
        assert multiset(FilterGlyphOrder(glyphOrder, mapped)) == multiset{glyphOrder[0]} + multiset(rest);
        assert ([glyphOrder[0]] + rest)[1..] == rest;
      } else {
        assert FilterGlyphOrder(glyphOrder, mapped) == rest;
        if rest != [] {
          assert rest[0] in rest;
        }
      }
    }
  }

  // ----------------------------------------------------------------------
  // Simple font: widths and the Differences array

  /** The loop that collects one width per glyph. */
  method BuildWidths(glyphs: seq<string>, advance: string -> real) returns (widths: seq<real>)
    ensures |widths| == |glyphs| && forall i :: 0 <= i < |glyphs| ==> widths[i] == advance(glyphs[i])
  {
    widths := [];
    var i := 0;
    while i < |glyphs|
      invariant 0 <= i <= |glyphs|
      invariant |widths| == i && forall j :: 0 <= j < i ==> widths[j] == advance(glyphs[j])
    {
      widths := widths + [advance(glyphs[i])];
      i := i + 1;
    }
  }

  /** An element of a `Differences` array: a code, or a glyph name for the next code. */
  datatype DifferencesItem = Code(code: nat) | GlyphName(name: string)

  /** Each glyph preceded by its own code, the first one being `first`. */
  function DifferencesFrom(glyphs: seq<string>, first: nat): seq<DifferencesItem>
  {
    if glyphs == [] then [] else [Code(first), GlyphName(glyphs[0])] + DifferencesFrom(glyphs[1..], first + 1)
  }

  /** The loop that appends each index and glyph name; specified by the function `DifferencesFrom`. */
  method BuildDifferences(glyphs: seq<string>) returns (differences: seq<DifferencesItem>)
    ensures differences == DifferencesFrom(glyphs, 0)
  {
    differences := [];
    var i := 0;
    while i < |glyphs|
      invariant 0 <= i <= |glyphs| && differences == DifferencesFrom(glyphs[..i], 0)
    {
      DifferencesSnoc(glyphs[..i], glyphs[i], 0);
      assert glyphs[..i + 1] == glyphs[..i] + [glyphs[i]];
      differences := differences + [Code(i)];
      differences := differences + [GlyphName(glyphs[i])];
      i := i + 1;
    }
    assert glyphs[..i] == glyphs;
  }

  lemma {:induction false} DifferencesSnoc(glyphs: seq<string>, g: string, first: nat)
    ensures DifferencesFrom(glyphs + [g], first) == DifferencesFrom(glyphs, first) + [Code(first + |glyphs|), GlyphName(g)]
  {
    if glyphs != [] {
      assert (glyphs + [g])[1..] == glyphs[1..] + [g];
      DifferencesSnoc(glyphs[1..], g, first + 1);
    }
  }

  /** The array has two items per glyph: the code `first + i` at position 2i and glyph i's name at 2i+1. */
  lemma {:induction false} DifferencesLayout(glyphs: seq<string>, first: nat)
    ensures |DifferencesFrom(glyphs, first)| == 2 * |glyphs|
    ensures forall i :: 0 <= i < |glyphs| ==>
      DifferencesFrom(glyphs, first)[2 * i] == Code(first + i)
      && DifferencesFrom(glyphs, first)[2 * i + 1] == GlyphName(glyphs[i])
  {
    if glyphs != [] {
      DifferencesLayout(glyphs[1..], first + 1);
      var d := DifferencesFrom(glyphs, first);
      var rest := DifferencesFrom(glyphs[1..], first + 1);
      assert d == [Code(first), GlyphName(glyphs[0])] + rest;
      forall i | 1 <= i < |glyphs|
        ensures d[2 * i] == Code(first + i) && d[2 * i + 1] == GlyphName(glyphs[i])
      {
        assert d[2 * i] == rest[2 * (i - 1)];
        assert d[2 * i + 1] == rest[2 * (i - 1) + 1];
        assert glyphs[1..][i - 1] == glyphs[i];
      }
    }
  }

  /**
   * How a reader applies a `Differences` array (section 9.6.6.1 of
   * ISO 32000-1): a code sets the next code to assign, each name is assigned
   * to the next code and advances it.
   */
  function ApplyDifferences(items: seq<DifferencesItem>, next: Option<nat>, encoding: map<nat, string>): map<nat, string>
  {
    if items == [] then encoding
    else
      match items[0]
      case Code(c) => ApplyDifferences(items[1..], Some(c), encoding)
      case GlyphName(g) =>
        if next.None? then ApplyDifferences(items[1..], None, encoding)
        else ApplyDifferences(items[1..], Some(next.value + 1), encoding[next.value := g])
  }

  lemma {:induction false} ApplyDifferencesFrom(glyphs: seq<string>, first: nat, next: Option<nat>, encoding: map<nat, string>)
    ensures forall c :: (c in ApplyDifferences(DifferencesFrom(glyphs, first), next, encoding)
                         <==> c in encoding || first <= c < first + |glyphs|)
    ensures forall c :: first <= c < first + |glyphs| ==>
      ApplyDifferences(DifferencesFrom(glyphs, first), next, encoding)[c] == glyphs[c - first]
    ensures forall c :: c in encoding && !(first <= c < first + |glyphs|) ==>
      ApplyDifferences(DifferencesFrom(glyphs, first), next, encoding)[c] == encoding[c]
  {
    if glyphs != [] {
      var items := DifferencesFrom(glyphs, first);
      var rest := DifferencesFrom(glyphs[1..], first + 1);
      var e1 := encoding[first := glyphs[0]];
      assert items[1..][1..] == rest;
      assert ApplyDifferences(items, next, encoding) == ApplyDifferences(items[1..], Some(first), encoding);
      assert ApplyDifferences(items[1..], Some(first), encoding) == ApplyDifferences(rest, Some(first + 1), e1);
      ApplyDifferencesFrom(glyphs[1..], first + 1, Some(first + 1), e1);
      var r := ApplyDifferences(rest, Some(first + 1), e1);
      assert r == ApplyDifferences(items, next, encoding);
      forall c
        ensures c in r <==> c in encoding || first <= c < first + |glyphs|
      {
        assert c in e1 <==> c in encoding || c == first;
      }
      forall c | first <= c < first + |glyphs|
        ensures c in r && r[c] == glyphs[c - first]
      {
        if c > first {
          assert glyphs[1..][c - (first + 1)] == glyphs[c - first];
        } else {
          assert c in e1 && e1[c] == glyphs[0];
        }
      }
      forall c | c in encoding && !(first <= c < first + |glyphs|)
        ensures r[c] == encoding[c]
      {
        assert c in e1 && e1[c] == encoding[c];
      }
    }
  }

  /** The `Differences` array assigns code `i` to glyph `i` and nothing else. */
  lemma {:induction false} DifferencesEncodeGlyphs(glyphs: seq<string>)
    ensures forall c: nat :: c in ApplyDifferences(DifferencesFrom(glyphs, 0), None, map[]) <==> c < |glyphs|
    ensures forall c :: 0 <= c < |glyphs| ==> ApplyDifferences(DifferencesFrom(glyphs, 0), None, map[])[c] == glyphs[c]
  {
    ApplyDifferencesFrom(glyphs, 0, None, map[]);
    var e := ApplyDifferences(DifferencesFrom(glyphs, 0), None, map[]);
    forall c: nat
      ensures c in e <==> c < |glyphs|
    {
      var empty: map<nat, string> := map[];
      assert c !in empty;
    }
    forall c: nat | c < |glyphs|
      ensures e[c] == glyphs[c]
    {
      assert 0 <= c < 0 + |glyphs| && c - 0 == c;
    }
  }

  // ----------------------------------------------------------------------
  // BaseFont

  /** The first record for platform 3, encoding 1, name 6 (the PostScript name). */
  function PostScriptNameRecord(names: seq<NameRecord>): Option<NameRecord>
  {
    if names == [] then None
    else if IsPostScriptName(names[0]) then Some(names[0])
    else PostScriptNameRecord(names[1..])
  }

  predicate IsPostScriptName(record: NameRecord)
  {
    record.platformID == 3 && record.platEncID == 1 && record.nameID == 6
  }

  /** The record found is the first PostScript name record; there is none exactly when no record is one. */
  lemma {:induction false} PostScriptNameRecordSpec(names: seq<NameRecord>)
    ensures PostScriptNameRecord(names).None? <==> forall i :: 0 <= i < |names| ==> !IsPostScriptName(names[i])
    ensures PostScriptNameRecord(names).Some? ==>
      exists i :: 0 <= i < |names| && names[i] == PostScriptNameRecord(names).value && IsPostScriptName(names[i])
              && forall j :: 0 <= j < i ==> !IsPostScriptName(names[j])
  {
    if names != [] && !IsPostScriptName(names[0]) {
      PostScriptNameRecordSpec(names[1..]);
      if PostScriptNameRecord(names).Some? {
        var i :| 0 <= i < |names[1..]| && names[1..][i] == PostScriptNameRecord(names).value
                 && IsPostScriptName(names[1..][i]) && forall j :: 0 <= j < i ==> !IsPostScriptName(names[1..][j]);
        assert names[i + 1] == names[1..][i];
        forall j | 0 <= j < i + 1
          ensures !IsPostScriptName(names[j])
        {
          if j > 0 {
            assert names[j] == names[1..][j - 1];
          }
        }
      } else {
        forall i | 0 <= i < |names|
          ensures !IsPostScriptName(names[i])
        {
          if i > 0 {
            assert names[i] == names[1..][i - 1];
          }
        }
      }
    } else if names != [] {
      assert 0 <= 0 < |names| && names[0] == PostScriptNameRecord(names).value;
    }
  }

  /** Bytes decoded as latin1: each byte is the character with that code point. */
  function Latin1(bytes: seq<Byte>): string
  {
    seq(|bytes|, i requires 0 <= i < |bytes| => bytes[i] as char)
  }

  /** The characters kept in a base font name: ASCII letters and `-`. */
  predicate KeptInName(c: char)
  {
    'a' <= c <= 'z' || 'A' <= c <= 'Z' || c == '-'
  }

  function FilterName(s: string): string
  {
    if s == [] then [] else (if KeptInName(s[0]) then [s[0]] else []) + FilterName(s[1..])
  }

  /** `_get_base_font`: the PostScript name, decoded as latin1, with every other character dropped. */
  function BaseFont(names: seq<NameRecord>): Result<string, Error>
  {
    match PostScriptNameRecord(names)
    case None => Err(NoPostScriptName)
    case Some(record) => Ok(FilterName(Latin1(record.bytes)))
  }

  /**
   * The base font name keeps exactly the letters and hyphens of the name, in
   * their order and each as often as the name holds it.
   */
  lemma {:induction false} FilterNameMembers(s: string)
    ensures forall c :: c in FilterName(s) <==> c in s && KeptInName(c)
    ensures forall c :: multiset(FilterName(s))[c] == if KeptInName(c) then multiset(s)[c] else 0
    ensures IsSubsequence(FilterName(s), s)
  {
    if s != [] {
      var rest := FilterName(s[1..]);
      FilterNameMembers(s[1..]);
      assert s == [s[0]] + s[1..];
      assert multiset(s) == multiset{s[0]} + multiset(s[1..]);
      if KeptInName(s[0]) {
        assert FilterName(s) == [s[0]] + rest;
        assert multiset(FilterName(s)) == multiset{s[0]} + multiset(rest);
        assert ([s[0]] + rest)[1..] == rest;
      } else {
        assert FilterName(s) == rest;
        if rest != [] {
          assert rest[0] in rest;
        }
      }
    }
  }

  /** The base font name is unchanged by filtering it again: it holds only letters and hyphens. */
  lemma {:induction false} FilterNameIdempotent(s: string)
    ensures FilterName(FilterName(s)) == FilterName(s)
  {
    if s != [] {
      var rest := FilterName(s[1..]);
      FilterNameIdempotent(s[1..]);
      if KeptInName(s[0]) {
        assert FilterName(s) == [s[0]] + rest;
        assert ([s[0]] + rest)[1..] == rest;
      } else {
        assert FilterName(s) == [] + rest == rest;
      }
    }
  }

  /** A name of Latin-1 characters encoded as UTF-16BE, as platform 3 records are. */
  function Utf16BeBytes(name: string): seq<Byte>
    requires forall i :: 0 <= i < |name| ==> name[i] as int < 256
  {
    if name == [] then [] else [0, name[0] as int] + Utf16BeBytes(name[1..])
  }

  /**
   * Decoding a UTF-16BE record as latin1 interleaves NUL characters, which
   * the filter drops: the base font is the filtered name itself.
   */
  lemma {:induction false} BaseFontOfUtf16Name(name: string)
    requires forall i :: 0 <= i < |name| ==> name[i] as int < 256
    ensures FilterName(Latin1(Utf16BeBytes(name))) == FilterName(name)
  {
    if name != [] {
      var rest := Utf16BeBytes(name[1..]);
      BaseFontOfUtf16Name(name[1..]);
      var l := Latin1([0, name[0] as int] + rest);
      assert l == ['\0', name[0]] + Latin1(rest);
      assert l[1..] == [name[0]] + Latin1(rest);
      assert l[1..][1..] == Latin1(rest);
    }
  }

  // ----------------------------------------------------------------------
  // Streams

  /**
   * `_get_font_file_stream`: the font program, embedded as FontFile2; the
   * entries its assignments build, in order (`FontFileStreamAssignments`).
   */
  function FontFileStream(bytes: seq<Byte>, compress: seq<Byte> -> seq<Byte>): (s: Stream)
    ensures Dict.UniqueKeys(s)
    ensures Dict.Keys(s) == ["Type", "Subtype", "Length", "Length1", "Filter", "DecodedBytes", "Bytes"]
    ensures Dict.Lookup(s, "Type") == Some(PdfName("Font"))
    ensures Dict.Lookup(s, "Subtype") == Some(PdfName("TrueType"))
    ensures Dict.Lookup(s, "Length") == Some(PdfNumber(|bytes|))
    ensures Dict.Lookup(s, "Length1") == Some(PdfNumber(|bytes|))
    ensures Dict.Lookup(s, "DecodedBytes") == Some(PdfBytes(bytes))
    ensures Dict.Lookup(s, "Bytes") == Some(PdfBytes(compress(bytes)))
    ensures Dict.Lookup(s, "Filter") == Some(PdfName("FlateDecode"))
  {
    var entries: Stream := [("Type", PdfName("Font")), ("Subtype", PdfName("TrueType")),
                            ("Length", PdfNumber(|bytes|)), ("Length1", PdfNumber(|bytes|)),
                            ("Filter", PdfName("FlateDecode")), ("DecodedBytes", PdfBytes(bytes)),
                            ("Bytes", PdfBytes(compress(bytes)))];
    assert Dict.UniqueKeys(entries);
    Dict.LookupUnique(entries, 0);
    Dict.LookupUnique(entries, 1);
    Dict.LookupUnique(entries, 2);
    Dict.LookupUnique(entries, 3);
    Dict.LookupUnique(entries, 4);
    Dict.LookupUnique(entries, 5);
    Dict.LookupUnique(entries, 6);
    entries
  }

  /** The seven assignments on a fresh Stream, each to a new key, build exactly `FontFileStream`. */
  lemma {:induction false} FontFileStreamAssignments(bytes: seq<Byte>, compress: seq<Byte> -> seq<Byte>)
    ensures var s0: Stream := Dict.Put([], "Type", PdfName("Font"));
      var s1 := Dict.Put(s0, "Subtype", PdfName("TrueType"));
      var s2 := Dict.Put(s1, "Length", PdfNumber(|bytes|));
      var s3 := Dict.Put(s2, "Length1", PdfNumber(|bytes|));
      var s4 := Dict.Put(s3, "Filter", PdfName("FlateDecode"));
      var s5 := Dict.Put(s4, "DecodedBytes", PdfBytes(bytes));
      Dict.Put(s5, "Bytes", PdfBytes(compress(bytes))) == FontFileStream(bytes, compress)
  {
    var entries := FontFileStream(bytes, compress);
    var s0: Stream := Dict.Put([], "Type", PdfName("Font"));
    var s1 := Dict.Put(s0, "Subtype", PdfName("TrueType"));
    var s2 := Dict.Put(s1, "Length", PdfNumber(|bytes|));
    var s3 := Dict.Put(s2, "Length1", PdfNumber(|bytes|));
    var s4 := Dict.Put(s3, "Filter", PdfName("FlateDecode"));
    var s5 := Dict.Put(s4, "DecodedBytes", PdfBytes(bytes));
    Dict.PutAbsent([], "Type", PdfName("Font"));
    assert s1 == entries[..2] by { Dict.PutAbsent(s0, "Subtype", PdfName("TrueType")); }
    assert s2 == entries[..3] by { Dict.PutAbsent(s1, "Length", PdfNumber(|bytes|)); }
    assert s3 == entries[..4] by { Dict.PutAbsent(s2, "Length1", PdfNumber(|bytes|)); }
    assert s4 == entries[..5] by { Dict.PutAbsent(s3, "Filter", PdfName("FlateDecode")); }
    assert s5 == entries[..6] by { Dict.PutAbsent(s4, "DecodedBytes", PdfBytes(bytes)); }
    Dict.PutAbsent(s5, "Bytes", PdfBytes(compress(bytes)));
  }

  /** The fixed text before the `bfchar` blocks: CIDSystemInfo Adobe/UCS/0 and one codespace range `<0000> <FFFF>`. */
  const CmapPrefix: string := "\n        /CIDInit /ProcSet findresource begin\n        12 dict begin\n        begincmap\n        /CIDSystemInfo\n        <<  /Registry (Adobe)\n        /Ordering (UCS)\n        /Supplement 0\n        >> def\n        /CMapName /Adobe-Identity-UCS def\n        /CMapType 2 def\n        1 begincodespacerange\n        <0000> <FFFF>\n        endcodespacerange\n        "

  /** The fixed text after the blocks. */
  const CmapSuffix: string := "        \n        endcmap\n        CMapName currentdict /CMap defineresource pop\n        end\n        end\n        "

  /** The ToUnicode stream holding the CMap text around `content`. */
  function ToUnicodeStream(content: string, compressText: string -> seq<Byte>): (s: Stream)
    ensures Dict.UniqueKeys(s)
    ensures Dict.Lookup(s, "DecodedBytes") == Some(PdfText(CmapPrefix + content + CmapSuffix))
    ensures Dict.Lookup(s, "Length") == Some(PdfNumber(|CmapPrefix + content + CmapSuffix|))
    ensures Dict.Lookup(s, "Filter") == Some(PdfName("FlateDecode"))
  {
    var text := CmapPrefix + content + CmapSuffix;
    var s0: Stream := Dict.Put([], "DecodedBytes", PdfText(text));
    var s1 := Dict.Put(s0, "Bytes", PdfBytes(compressText(text)));
    var s2 := Dict.Put(s1, "Filter", PdfName("FlateDecode"));
    var s3 := Dict.Put(s2, "Length", PdfNumber(|text|));
    assert Dict.UniqueKeys(s3) by {
      Dict.PutKeepsKeysUnique([], "DecodedBytes", PdfText(text));
      Dict.PutKeepsKeysUnique(s0, "Bytes", PdfBytes(compressText(text)));
      Dict.PutKeepsKeysUnique(s1, "Filter", PdfName("FlateDecode"));
      Dict.PutKeepsKeysUnique(s2, "Length", PdfNumber(|text|));
    }
    assert Dict.Lookup(s3, "DecodedBytes") == Some(PdfText(text)) by {
      Dict.LookupPut([], "DecodedBytes", PdfText(text));
      Dict.LookupPutOther(s0, "Bytes", PdfBytes(compressText(text)), "DecodedBytes");
      Dict.LookupPutOther(s1, "Filter", PdfName("FlateDecode"), "DecodedBytes");
      Dict.LookupPutOther(s2, "Length", PdfNumber(|text|), "DecodedBytes");
    }
    assert Dict.Lookup(s3, "Filter") == Some(PdfName("FlateDecode")) by {
      Dict.LookupPut(s1, "Filter", PdfName("FlateDecode"));
      Dict.LookupPutOther(s2, "Length", PdfNumber(|text|), "Filter");
    }
    Dict.LookupPut(s2, "Length", PdfNumber(|text|));
    s3
  }

  /**
   * `_build_custom_cmap`: the mappings of every glyph of the font's glyph
   * order, in blocks; specified by the function `ToUnicodeStream` of `Blocks`.
   */
  method BuildCustomCmap(glyphOrder: seq<string>, toUnicode: string -> string, compressText: string -> seq<Byte>)
    returns (s: Stream)
    ensures s == ToUnicodeStream(ToUnicodeCmap.Blocks(ToUnicodeCmap.Chunks(ToUnicodeCmap.Pairs(glyphOrder, toUnicode))), compressText)
  {
    var pairs := ToUnicodeCmap.BuildPairs(glyphOrder, toUnicode);
    var content := ToUnicodeCmap.BuildBlocks(pairs);
    s := ToUnicodeStream(content, compressText);
  }

  // ----------------------------------------------------------------------
  // The font

  datatype FontDescriptor = FontDescriptor(fontName: string, fontFile2: Stream)

  /** The descendant CIDFontType2 font of a Type0 font, without its widths. */
  datatype CIDFont = CIDFont(subtype: string, baseFont: string, descriptor: FontDescriptor, cidToGidMap: string,
                             registry: string, ordering: string, supplement: nat)

  datatype BuiltFont =
    | SimpleTrueType(name: string, baseFont: string, firstChar: int, lastChar: int, widths: seq<real>,
                     baseEncoding: string, differences: seq<DifferencesItem>, descriptor: FontDescriptor)
    | Type0(baseFont: string, encoding: string, toUnicode: Stream, descendant: CIDFont)

  /** `LastChar` as written: the glyph count; see `LastCharOverstated`. */
  function LastCharAsWritten(glyphs: seq<string>): int
  {
    |glyphs|
  }

  /** `LastChar`: the code of the last glyph, so that `Widths` covers `FirstChar` to `LastChar`. */
  function LastChar(glyphs: seq<string>): int
  {
    |glyphs| - 1
  }

  /** The widths collected by the loop. */
  function Widths(glyphs: seq<string>, advance: string -> real): seq<real>
  {
    seq(|glyphs|, i requires 0 <= i < |glyphs| => advance(glyphs[i]))
  }

  /** The glyphs the simple font or the Type0 switch counts: the glyph order filtered by the cmap. */
  function MappedGlyphOrder(program: FontProgram): seq<string>
    requires program.cmap.Some?
  {
    FilterGlyphOrder(program.glyphOrder, GlyphNames(program.cmap.value))
  }

  /** `true_type_font_from_file` on an already read font program. */
  function FontFromFile(program: FontProgram, advance: string -> real, toUnicode: string -> string,
                        compress: seq<Byte> -> seq<Byte>, compressText: string -> seq<Byte>): Result<BuiltFont, Error>
  {
    if program.fileBytes == [] then Err(EmptyFontFile)
    else if program.cmap.None? then Err(NoUnicodeCmap)
    else
      var glyphs := MappedGlyphOrder(program);
      match BaseFont(program.names)
      case Err(e) => Err(e)
      case Ok(baseFont) =>
        var descriptor := FontDescriptor(baseFont, FontFileStream(program.fileBytes, compress));
        if |glyphs| >= 256 then
          if !program.windowsUnicodeCmap then Err(NoWindowsUnicodeCmap)
          else
            var toUnicodeStream := ToUnicodeStream(
              ToUnicodeCmap.Blocks(ToUnicodeCmap.Chunks(ToUnicodeCmap.Pairs(program.glyphOrder, toUnicode))), compressText);
            Ok(Type0(baseFont, "Identity-H", toUnicodeStream,
                     CIDFont("CIDFontType2", baseFont, descriptor, "Identity", "Adobe", "Identity", 0)))
        else
          Ok(SimpleTrueType(baseFont, baseFont, 0, LastChar(glyphs), Widths(glyphs, advance), "WinAnsiEncoding",
                            DifferencesFrom(glyphs, 0), descriptor))
  }

  /** The steps of `true_type_font_from_file` after the file is read; specified by the function `FontFromFile`. */
  method TrueTypeFontFromFile(program: FontProgram, advance: string -> real, toUnicode: string -> string,
                              compress: seq<Byte> -> seq<Byte>, compressText: string -> seq<Byte>)
    returns (r: Result<BuiltFont, Error>)
    ensures r == FontFromFile(program, advance, toUnicode, compress, compressText)
  {
    if program.fileBytes == [] {
      return Err(EmptyFontFile);
    }
    if program.cmap.None? {
      return Err(NoUnicodeCmap);
    }
    var reverse := BuildReverseCmap(program.cmap.value);
    var glyphs := FilterGlyphOrder(program.glyphOrder, reverse.Keys);
    // with 256 glyphs or more, switch to a Type0 font
    if |glyphs| >= 256 {
      var baseFont := BaseFont(program.names);
      if baseFont.Err? {
        return Err(baseFont.error);
      }
      var toUnicodeStream := BuildCustomCmap(program.glyphOrder, toUnicode, compressText);
      var descriptor := FontDescriptor(baseFont.value, FontFileStream(program.fileBytes, compress));
      // the W array starts with `getcmap(3, 1).cmap`, outside the `try`
      if !program.windowsUnicodeCmap {
        return Err(NoWindowsUnicodeCmap);
      }
      var descendant := CIDFont("CIDFontType2", baseFont.value, descriptor, "Identity", "Adobe", "Identity", 0);
      return Ok(Type0(baseFont.value, "Identity-H", toUnicodeStream, descendant));
    }
    var baseFont := BaseFont(program.names);
    if baseFont.Err? {
      return Err(baseFont.error);
    }
    var widths := BuildWidths(glyphs, advance);
    assert widths == Widths(glyphs, advance);
    var differences := BuildDifferences(glyphs);
    var descriptor := FontDescriptor(baseFont.value, FontFileStream(program.fileBytes, compress));
    r := Ok(SimpleTrueType(baseFont.value, baseFont.value, 0, LastChar(glyphs), widths, "WinAnsiEncoding",
                           differences, descriptor));
  }

  // ----------------------------------------------------------------------
  // Properties of the built font

  /** The Type0 path is taken exactly when the cmap reaches 256 glyphs or more. */
  lemma {:induction false} Type0Switch(program: FontProgram, advance: string -> real, toUnicode: string -> string,
                    compress: seq<Byte> -> seq<Byte>, compressText: string -> seq<Byte>)
    requires FontFromFile(program, advance, toUnicode, compress, compressText).Ok?
    ensures program.cmap.Some?
    ensures FontFromFile(program, advance, toUnicode, compress, compressText).value.Type0? <==>
      |MappedGlyphOrder(program)| >= 256
  {
  }

  /**
   * A simple TrueType font has one width per code from `FirstChar` to
   * `LastChar`; its `Differences` array assigns each of those codes to a
   * glyph the cmap reaches, in glyph order, with the width of that glyph; so
   * `LastChar` stays below 256, and falls below `FirstChar` (an empty range)
   * exactly when the cmap reaches no glyph; and its font file reports its
   * length.
   */
  lemma {:induction false} SimpleFontSpec(program: FontProgram, advance: string -> real, toUnicode: string -> string,
                       compress: seq<Byte> -> seq<Byte>, compressText: string -> seq<Byte>)
    requires FontFromFile(program, advance, toUnicode, compress, compressText).Ok?
    requires FontFromFile(program, advance, toUnicode, compress, compressText).value.SimpleTrueType?
    ensures var f := FontFromFile(program, advance, toUnicode, compress, compressText).value;
      var glyphs := MappedGlyphOrder(program);
      var encoding := ApplyDifferences(f.differences, None, map[]);
      && f.firstChar == 0 && f.lastChar < 256
      && (glyphs == [] <==> f.lastChar < f.firstChar)
      && |f.widths| == f.lastChar - f.firstChar + 1
      && (forall c: nat :: c in encoding <==> f.firstChar <= c <= f.lastChar)
      && (forall c: nat :: c in encoding ==>
            encoding[c] in GlyphNames(program.cmap.value) && f.widths[c - f.firstChar] == advance(encoding[c]))
      && IsSubsequence(glyphs, program.glyphOrder)
      && Dict.Lookup(f.descriptor.fontFile2, "Length1") == Some(PdfNumber(|program.fileBytes|))
  {
    var glyphs := MappedGlyphOrder(program);
    SimpleFontFields(program, advance, toUnicode, compress, compressText);
    FilterGlyphOrderSpec(program.glyphOrder, GlyphNames(program.cmap.value));
    SimpleEncoding(glyphs, advance, GlyphNames(program.cmap.value));
  }

  /** The Differences of the glyphs give codes 0 to |glyphs| - 1, each to its glyph, with that glyph's width. */
  lemma {:induction false} SimpleEncoding(glyphs: seq<string>, advance: string -> real, names: set<string>)
    requires forall g :: g in glyphs ==> g in names
    ensures var encoding := ApplyDifferences(DifferencesFrom(glyphs, 0), None, map[]);
      && (forall c: nat :: c in encoding <==> c <= |glyphs| - 1)
      && (forall c: nat :: c in encoding ==>
            encoding[c] in names && c < |glyphs| && Widths(glyphs, advance)[c] == advance(encoding[c]))
  {
    DifferencesEncodeGlyphs(glyphs);
    var encoding := ApplyDifferences(DifferencesFrom(glyphs, 0), None, map[]);
    forall c: nat | c in encoding
      ensures encoding[c] in names
    {
      assert encoding[c] == glyphs[c] && glyphs[c] in glyphs;
    }
  }

  /** The entries of a simple font, in terms of the glyphs the cmap reaches. */
  lemma {:induction false} SimpleFontFields(program: FontProgram, advance: string -> real, toUnicode: string -> string,
                       compress: seq<Byte> -> seq<Byte>, compressText: string -> seq<Byte>)
    requires FontFromFile(program, advance, toUnicode, compress, compressText).Ok?
    requires FontFromFile(program, advance, toUnicode, compress, compressText).value.SimpleTrueType?
    ensures program.cmap.Some?
    ensures var f := FontFromFile(program, advance, toUnicode, compress, compressText).value;
      var glyphs := MappedGlyphOrder(program);
      && |glyphs| < 256 && f.firstChar == 0 && f.lastChar == LastChar(glyphs)
      && f.widths == Widths(glyphs, advance) && f.differences == DifferencesFrom(glyphs, 0)
      && f.descriptor.fontFile2 == FontFileStream(program.fileBytes, compress)
  {
  }

  /**
   * As written, `LastChar` is the glyph count: with `FirstChar` 0 that is one
   * code more than `Widths` has entries, whatever the glyphs; for the glyphs
   * `a`, `b` it claims codes 0 to 2 with two widths.
   */
  lemma {:induction false} LastCharOverstated(glyphs: seq<string>, advance: string -> real)
    ensures |Widths(glyphs, advance)| == LastCharAsWritten(glyphs) - 0
    ensures |Widths(glyphs, advance)| != LastCharAsWritten(glyphs) - 0 + 1
    ensures LastCharAsWritten(["a", "b"]) == 2 && |Widths(["a", "b"], advance)| == 2
  {
  }

  /**
   * A Type0 font carries the ToUnicode CMap built from the whole glyph order:
   * its text is the fixed prefix, the blocks of mappings and the fixed
   * suffix, and its length is that of the text.
   */
  lemma {:induction false} Type0FontSpec(program: FontProgram, advance: string -> real, toUnicode: string -> string,
                      compress: seq<Byte> -> seq<Byte>, compressText: string -> seq<Byte>)
    requires FontFromFile(program, advance, toUnicode, compress, compressText).Ok?
    requires FontFromFile(program, advance, toUnicode, compress, compressText).value.Type0?
    ensures var f := FontFromFile(program, advance, toUnicode, compress, compressText).value;
      var pairs := ToUnicodeCmap.Pairs(program.glyphOrder, toUnicode);
      var text := CmapPrefix + ToUnicodeCmap.Blocks(ToUnicodeCmap.Chunks(pairs)) + CmapSuffix;
      && f.encoding == "Identity-H"
      && Dict.Lookup(f.toUnicode, "DecodedBytes") == Some(PdfText(text))
      && Dict.Lookup(f.toUnicode, "Length") == Some(PdfNumber(|text|))
      && f.descendant.baseFont == f.baseFont == f.descendant.descriptor.fontName
      && Dict.Lookup(f.descendant.descriptor.fontFile2, "Length") == Some(PdfNumber(|program.fileBytes|))
      && program.windowsUnicodeCmap
  {
  }

  /**
   * With 256 glyphs or more the font fails exactly when the name table has no
   * PostScript name or the `cmap` table has no (3, 1) subtable; the latter is
   * the one failure of the W array's construction outside its `try`.
   */
  lemma {:induction false} Type0Failures(program: FontProgram, advance: string -> real, toUnicode: string -> string,
                      compress: seq<Byte> -> seq<Byte>, compressText: string -> seq<Byte>)
    requires program.fileBytes != [] && program.cmap.Some? && |MappedGlyphOrder(program)| >= 256
    ensures FontFromFile(program, advance, toUnicode, compress, compressText).Err? <==>
      BaseFont(program.names).Err? || !program.windowsUnicodeCmap
    ensures BaseFont(program.names).Ok? && !program.windowsUnicodeCmap ==>
      FontFromFile(program, advance, toUnicode, compress, compressText) == Err(NoWindowsUnicodeCmap)
  {
  }
}

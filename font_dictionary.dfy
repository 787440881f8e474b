/**
 * ptext's font dictionary transformer: recognises `Type = Font`
 * dictionaries, picks the font class from `Subtype` (sections 9.6 and 9.7 of
 * ISO 32000-1), sets the new font's parent, attaches the event listeners and
 * copies every entry but `Parent`, converted by the root transformer, dropping
 * entries that convert to Null.
 */
module FontDictionary {
  import opened Wrappers
  import Dict

  /** The untyped objects the reader hands over; dictionary keys are the names of their `PDFName` keys. */
  datatype PdfObject =
    | PdfDictionary(entries: Dict.Entries<string, PdfObject>)
    | PdfArray(items: seq<PdfObject>)
    | PdfName(name: string)
    | PdfString(text: string)
    | PdfNumber(value: real)
    | PdfBoolean(truth: bool)
    | PdfNull
    | PdfReference(objectNumber: nat, generationNumber: nat)

  /** What the root transformer returns for a child: `PDFNull`, or some converted value. */
  datatype Converted = ConvertedNull | ConvertedValue(handle: nat)

  /** The six font classes. */
  datatype FontKind = TrueTypeFont | FontType0 | FontType1 | FontType3 | CIDFontType0 | CIDFontType2

  /** The parent object passed in by the caller, and the event listeners, by identity. */
  type ObjectId = nat
  type ListenerId = nat

  /** The error a call raises: a missing `Subtype` key, a non-name `Subtype`, or a use of the None font. */
  datatype Error = MissingSubtype | SubtypeNotAName | ListenerOnNone | AssignmentOnNone

  /** The `Subtype` name that selects each class. */
  function SubtypeName(k: FontKind): string
  {
    match k
    case TrueTypeFont => "TrueType"
    case FontType0 => "Type0"
    case FontType1 => "Type1"
    case FontType3 => "Type3"
    case CIDFontType0 => "CIDFontType0"
    case CIDFontType2 => "CIDFontType2"
  }

  /** The class a `Subtype` name selects, None for an unsupported one. */
  function KindOf(subtype: string): Option<FontKind>
  {
    if subtype == "TrueType" then Some(TrueTypeFont)
    else if subtype == "Type0" then Some(FontType0)
    else if subtype == "Type1" then Some(FontType1)
    else if subtype == "Type3" then Some(FontType3)
    else if subtype == "CIDFontType0" then Some(CIDFontType0)
    else if subtype == "CIDFontType2" then Some(CIDFontType2)
    else None
  }

  /** `object_to_transform[PDFName("Subtype")].name`, or the error that expression raises. */
  function SubtypeOf(entries: Dict.Entries<string, PdfObject>): Result<string, Error>
  {
    var subtype: Option<PdfObject> := Dict.Lookup(entries, "Subtype");
    if subtype.None? then Err(MissingSubtype)
    else if subtype.value.PdfName? then Ok(subtype.value.name)
    else Err(SubtypeNotAName)
  }

  /** `can_be_transformed`. */
  predicate CanBeTransformed(o: PdfObject)
  {
    o.PdfDictionary? && Dict.Lookup(o.entries, "Type") == Some(PdfName("Font"))
  }

  /** The entries that are converted: all but `Parent`, in order. */
  function ChildEntries(entries: Dict.Entries<string, PdfObject>): Dict.Entries<string, PdfObject>
  {
    if entries == [] then []
    else
      var last := entries[|entries| - 1];
      ChildEntries(entries[..|entries| - 1]) + (if last.0 == "Parent" then [] else [last])
  }

  /** The attributes the new font receives: each child entry converted, Null results dropped. */
  function CopiedAttributes(entries: Dict.Entries<string, PdfObject>, root: PdfObject -> Converted)
    : Dict.Entries<string, Converted>
  {
    if entries == [] then []
    else
      var last := entries[|entries| - 1];
      CopiedAttributes(entries[..|entries| - 1], root) +
        (if last.0 == "Parent" || root(last.1) == ConvertedNull then [] else [(last.0, root(last.1))])
  }

  /** The state of the new font as a child conversion sees it through its parent argument. */
  datatype FontState = FontState(kind: FontKind, parent: Option<ObjectId>, listeners: seq<ListenerId>)

  /** One call to the root transformer: the child value, what its parent argument is, and the listeners passed. */
  datatype ChildCall = ChildCall(value: PdfObject, parent: Option<FontState>, listeners: seq<ListenerId>)

  /** The calls made for `entries` when the parent argument is `parent`, stopping at none. */
  function ChildCalls(entries: Dict.Entries<string, PdfObject>, parent: Option<FontState>): seq<ChildCall>
  {
    var children := ChildEntries(entries);
    seq(|children|, i requires 0 <= i < |children| => ChildCall(children[i].1, parent, []))
  }

  /** The index of the first child entry that converts to something other than Null, or their count. */
  function FirstNonNull(children: Dict.Entries<string, PdfObject>, root: PdfObject -> Converted): (j: nat)
    ensures j <= |children|
    ensures forall i :: 0 <= i < j ==> root(children[i].1) == ConvertedNull
    ensures j < |children| ==> root(children[j].1) != ConvertedNull
  {
    if children == [] then 0
    else if root(children[0].1) != ConvertedNull then 0
    else 1 + FirstNonNull(children[1..], root)
  }

  /** A font object: its class, parent, listeners and attributes (insertion-ordered). */
  class Font {
    const kind: FontKind
    var parent: Option<ObjectId>
    var listeners: seq<ListenerId>
    var attributes: Dict.Entries<string, Converted>

    constructor (kind: FontKind)
      ensures this.kind == kind && parent.None? && listeners == [] && attributes == []
    {
      this.kind := kind;
      parent := None;
      listeners := [];
      attributes := [];
    }

    method SetParent(p: ObjectId)
      modifies this
      ensures parent == Some(p) && listeners == old(listeners) && attributes == old(attributes)
    {
      parent := Some(p);
    }

    method AddEventListener(l: ListenerId)
      modifies this
      ensures listeners == old(listeners) + [l] && parent == old(parent) && attributes == old(attributes)
    {
      listeners := listeners + [l];
    }

    /** `font[name] = value`. */
    method Set(name: string, value: Converted)
      modifies this
      ensures attributes == Dict.Put(old(attributes), name, value)
      ensures parent == old(parent) && listeners == old(listeners)
    {
      attributes := Dict.Put(attributes, name, value);
    }

    function State(): FontState
      reads this
    {
      FontState(kind, parent, listeners)
    }
  }

  /** What `transform` returns: a new font, None, or the error raised. */
  datatype Outcome = Built(font: Font) | NoFont | Failed(error: Error)

  /**
   * `transform(object_to_transform, parent_object, context, event_listeners)`
   * on a dictionary, with the root transformer `root` for the children.
   * `calls` records each call made to the root transformer, in order.
   *
   * A known subtype yields a fresh font of that class whose parent is
   * `parent` and whose listeners are `listeners`, both already in place when
   * the first child is converted; every child is converted with the font as
   * parent and no listeners; the attributes are exactly the non-Null
   * conversions of the entries other than `Parent`. An unknown subtype leaves
   * the font None: attaching a listener to it, or storing a non-Null child in
   * it, raises; when neither happens the result is None.
   */
  method Transform(obj: PdfObject, parent: ObjectId, listeners: seq<ListenerId>, root: PdfObject -> Converted)
    returns (r: Outcome, calls: seq<ChildCall>)
    requires obj.PdfDictionary? && Dict.UniqueKeys(obj.entries)
    ensures SubtypeOf(obj.entries).Err? ==> r == Failed(SubtypeOf(obj.entries).error) && calls == []
    ensures SubtypeOf(obj.entries).Ok? && KindOf(SubtypeOf(obj.entries).value).Some? ==>
      var kind := KindOf(SubtypeOf(obj.entries).value).value;
      && r.Built? && fresh(r.font)
      && r.font.kind == kind && r.font.parent == Some(parent) && r.font.listeners == listeners
      && r.font.attributes == CopiedAttributes(obj.entries, root)
      && calls == ChildCalls(obj.entries, Some(FontState(kind, Some(parent), listeners)))
    ensures SubtypeOf(obj.entries).Ok? && KindOf(SubtypeOf(obj.entries).value).None? ==>
      var children := ChildEntries(obj.entries);
      var j := FirstNonNull(children, root);
      if listeners != [] then r == Failed(ListenerOnNone) && calls == []
      else if j < |children| then r == Failed(AssignmentOnNone) && calls == ChildCalls(obj.entries, None)[..j + 1]
      else r == NoFont && calls == ChildCalls(obj.entries, None)
  {
    var entries := obj.entries;
    var subtype := SubtypeOf(entries);
    if subtype.Err? {
      return Failed(subtype.error), [];
    }
    var kind := KindOf(subtype.value);
    if kind.None? {
      // the font object stays None
      if listeners != [] {
        return Failed(ListenerOnNone), [];
      }
      r, calls := ConvertForNone(entries, root);
      return;
    }
    var font := new Font(kind.value);
    font.SetParent(parent);
    var k := 0;
    while k < |listeners|
      invariant 0 <= k <= |listeners|
      invariant font.parent == Some(parent) && font.listeners == listeners[..k] && font.attributes == []
    {
      font.AddEventListener(listeners[k]);
      assert listeners[..k + 1] == listeners[..k] + [listeners[k]];
      k := k + 1;
    }
    assert listeners[..k] == listeners;
    calls := [];
    var i := 0;
    while i < |entries|
      invariant 0 <= i <= |entries|
      invariant font.parent == Some(parent) && font.listeners == listeners
      invariant font.attributes == CopiedAttributes(entries[..i], root)
      invariant calls == ChildCalls(entries[..i], Some(FontState(kind.value, Some(parent), listeners)))
    {
      var (name, value) := entries[i];
      assert entries[..i + 1][..i] == entries[..i];
      CopiedKeysAreEarlierKeys(entries[..i], root);
      UniqueKeyNotEarlier(entries, i);
      ChildCallsSnoc(entries[..i], entries[i], Some(font.State()));
      if name == "Parent" {
        i := i + 1;
        continue;
      }
      calls := calls + [ChildCall(value, Some(font.State()), [])];
      var converted := root(value);
      if converted != ConvertedNull {
        Dict.PutAbsent(font.attributes, name, converted);
        font.Set(name, converted);
      }
      i := i + 1;
    }
    assert entries[..i] == entries;
    r := Built(font);
  }

  /** The key loop with the font None: it raises at the first child that converts to non-Null. */
  method ConvertForNone(entries: Dict.Entries<string, PdfObject>, root: PdfObject -> Converted)
    returns (r: Outcome, calls: seq<ChildCall>)
    ensures var children := ChildEntries(entries);
      var j := FirstNonNull(children, root);
      if j < |children| then r == Failed(AssignmentOnNone) && calls == ChildCalls(entries, None)[..j + 1]
      else r == NoFont && calls == ChildCalls(entries, None)
  {
    calls := [];
    var i := 0;
    assert entries[..0] == [];
    while i < |entries|
      invariant NullChildrenBefore(entries, i, calls, root)
    {
      var (name, value) := entries[i];
      if name == "Parent" {
        NullChildrenSkip(entries, i, calls, root);
        i := i + 1;
        continue;
      }
      NullChildrenStep(entries, i, calls, root);
      calls := calls + [ChildCall(value, None, [])];
      if root(value) != ConvertedNull {
        return Failed(AssignmentOnNone), calls;
      }
      i := i + 1;
    }
    NullChildrenAll(entries, calls, root);
    r := NoFont;
  }

  /** The loop state of `ConvertForNone` after `i` entries: one call per child so far, each converted to Null. */
  predicate NullChildrenBefore(entries: Dict.Entries<string, PdfObject>, i: nat, calls: seq<ChildCall>,
                               root: PdfObject -> Converted)
  {
    && i <= |entries|
    && calls == ChildCalls(entries[..i], None)
    && FirstNonNull(ChildEntries(entries), root) >= |ChildEntries(entries[..i])|
  }

  /** Passing over the `Parent` entry changes nothing. */
  lemma {:induction false} NullChildrenSkip(entries: Dict.Entries<string, PdfObject>, i: nat, calls: seq<ChildCall>,
                                            root: PdfObject -> Converted)
    requires i < |entries| && entries[i].0 == "Parent" && NullChildrenBefore(entries, i, calls, root)
    ensures NullChildrenBefore(entries, i + 1, calls, root)
  {
    assert entries[..i + 1] == entries[..i] + [entries[i]];
    ChildCallsSnoc(entries[..i], entries[i], None);
  }

  /**
   * A child entry's call extends the calls; it is the first non-Null child
   * exactly when it converts to something other than Null.
   */
  lemma {:induction false} NullChildrenStep(entries: Dict.Entries<string, PdfObject>, i: nat, calls: seq<ChildCall>,
                                            root: PdfObject -> Converted)
    requires i < |entries| && entries[i].0 != "Parent" && NullChildrenBefore(entries, i, calls, root)
    ensures var next := calls + [ChildCall(entries[i].1, None, [])];
      var children := ChildEntries(entries);
      && (root(entries[i].1) == ConvertedNull ==> NullChildrenBefore(entries, i + 1, next, root))
      && (root(entries[i].1) != ConvertedNull ==>
            FirstNonNull(children, root) < |children| && next == ChildCalls(entries, None)[..FirstNonNull(children, root) + 1])
  {
    var children := ChildEntries(entries);
    var k := |ChildEntries(entries[..i])|;
    ChildAt(entries, i);
    if root(entries[i].1) != ConvertedNull {
      assert FirstNonNull(children, root) == k;
    } else {
      FirstNonNullPast(children, k, root);
    }
  }

  /** A child entry at `i` is the next child after those before `i`, and its call the next call. */
  lemma {:induction false} ChildAt(entries: Dict.Entries<string, PdfObject>, i: nat)
    requires i < |entries| && entries[i].0 != "Parent"
    ensures var k := |ChildEntries(entries[..i])|;
      && k < |ChildEntries(entries)| && ChildEntries(entries)[k] == entries[i]
      && |ChildEntries(entries[..i + 1])| == k + 1
      && ChildCalls(entries[..i + 1], None) == ChildCalls(entries[..i], None) + [ChildCall(entries[i].1, None, [])]
      && ChildCalls(entries[..i + 1], None) == ChildCalls(entries, None)[..k + 1]
  {
    assert entries[..i + 1] == entries[..i] + [entries[i]];
    ChildCallsSnoc(entries[..i], entries[i], None);
    ChildEntriesPrefix(entries, i + 1);
  }

  /** Once every entry is passed without a non-Null child, no child converts to non-Null. */
  lemma {:induction false} NullChildrenAll(entries: Dict.Entries<string, PdfObject>, calls: seq<ChildCall>,
                                           root: PdfObject -> Converted)
    requires NullChildrenBefore(entries, |entries|, calls, root)
    ensures FirstNonNull(ChildEntries(entries), root) == |ChildEntries(entries)|
    ensures calls == ChildCalls(entries, None)
  {
    assert entries[..|entries|] == entries;
  }

  // ----------------------------------------------------------------------
  // Lemmas

  lemma {:induction false} ChildCallsSnoc(entries: Dict.Entries<string, PdfObject>, e: (string, PdfObject), parent: Option<FontState>)
    ensures ChildEntries(entries + [e]) == ChildEntries(entries) + (if e.0 == "Parent" then [] else [e])
    ensures ChildCalls(entries + [e], parent) ==
      ChildCalls(entries, parent) + (if e.0 == "Parent" then [] else [ChildCall(e.1, parent, [])])
  {
    assert (entries + [e])[..|entries|] == entries;
  }

  /** The child entries of a prefix are a prefix of the child entries. */
  lemma {:induction false} ChildEntriesPrefix(entries: Dict.Entries<string, PdfObject>, n: nat)
    requires n <= |entries|
    ensures |ChildEntries(entries[..n])| <= |ChildEntries(entries)|
    ensures ChildEntries(entries[..n]) == ChildEntries(entries)[..|ChildEntries(entries[..n])|]
    decreases |entries| - n
  {
    if n < |entries| {
      ChildEntriesPrefix(entries, n + 1);
      assert entries[..n + 1][..n] == entries[..n];
      ChildCallsSnoc(entries[..n], entries[n], None);
      assert entries[..n + 1] == entries[..n] + [entries[n]];
    } else {
      assert entries[..n] == entries;
    }
  }

  /** When the first non-Null child is not before `k` and child `k` converts to Null, it is not before `k + 1`. */
  lemma {:induction false} FirstNonNullPast(children: Dict.Entries<string, PdfObject>, k: nat, root: PdfObject -> Converted)
    requires k < |children| && FirstNonNull(children, root) >= k && root(children[k].1) == ConvertedNull
    ensures FirstNonNull(children, root) >= k + 1
  {
  }

  /** The keys of the copied attributes are keys of the entries they were copied from. */
  lemma {:induction false} CopiedKeysAreEarlierKeys(entries: Dict.Entries<string, PdfObject>, root: PdfObject -> Converted)
    ensures forall k :: k in Dict.Keys(CopiedAttributes(entries, root)) ==> k in Dict.Keys(entries) && k != "Parent"
  {
    if entries != [] {
      var init := entries[..|entries| - 1];
      CopiedKeysAreEarlierKeys(init, root);
      assert Dict.Keys(entries) == Dict.Keys(init) + [entries[|entries| - 1].0];
      var last := entries[|entries| - 1];
      var tail: Dict.Entries<string, Converted> :=
        if last.0 == "Parent" || root(last.1) == ConvertedNull then [] else [(last.0, root(last.1))];
      assert Dict.Keys(CopiedAttributes(entries, root)) == Dict.Keys(CopiedAttributes(init, root)) + Dict.Keys(tail);
    }
  }

  lemma {:induction false} UniqueKeyNotEarlier(entries: Dict.Entries<string, PdfObject>, i: nat)
    requires Dict.UniqueKeys(entries) && i < |entries|
    ensures entries[i].0 !in Dict.Keys(entries[..i])
  {
  }

  /** Each class is selected by exactly its own `Subtype` name. */
  lemma {:induction false} KindOfSubtypeName(k: FontKind, subtype: string)
    ensures KindOf(SubtypeName(k)) == Some(k)
    ensures KindOf(subtype) == Some(k) <==> subtype == SubtypeName(k)
  {
  }

  /**
   * A dictionary is transformed exactly when it has an entry `Type` whose
   * value is the name `Font`.
   */
  lemma {:induction false} CanBeTransformedIff(o: PdfObject)
    requires o.PdfDictionary? && Dict.UniqueKeys(o.entries)
    ensures CanBeTransformed(o) <==> exists i :: 0 <= i < |o.entries| && o.entries[i] == ("Type", PdfName("Font"))
  {
    if exists i :: 0 <= i < |o.entries| && o.entries[i] == ("Type", PdfName("Font")) {
      var i :| 0 <= i < |o.entries| && o.entries[i] == ("Type", PdfName("Font"));
      Dict.LookupUnique(o.entries, i);
    } else if CanBeTransformed(o) {
      LookupFound(o.entries, "Type");
    }
  }

  lemma {:induction false} LookupFound<V>(d: Dict.Entries<string, V>, k: string)
    requires Dict.Lookup(d, k).Some?
    ensures exists i :: 0 <= i < |d| && d[i] == (k, Dict.Lookup(d, k).value)
  {
    if d[0].0 != k {
      LookupFound(d[1..], k);
      var i :| 0 <= i < |d[1..]| && d[1..][i] == (k, Dict.Lookup(d, k).value);
      assert d[i + 1] == (k, Dict.Lookup(d, k).value);
    } else {
      assert d[0] == (k, Dict.Lookup(d, k).value);
    }
  }

  /**
   * The copied attributes form a dictionary without a `Parent` key, and each
   * entry of the source other than `Parent` is present, under its name, with
   * its converted value exactly when that value is not Null.
   */
  lemma {:induction false} CopiedAttributesSpec(entries: Dict.Entries<string, PdfObject>, root: PdfObject -> Converted)
    requires Dict.UniqueKeys(entries)
    ensures Dict.UniqueKeys(CopiedAttributes(entries, root))
    ensures "Parent" !in Dict.Keys(CopiedAttributes(entries, root))
    ensures forall i :: 0 <= i < |entries| && entries[i].0 != "Parent" ==>
      Dict.Lookup(CopiedAttributes(entries, root), entries[i].0) ==
        (if root(entries[i].1) == ConvertedNull then None else Some(root(entries[i].1)))
  {
    CopiedKeysAreEarlierKeys(entries, root);
    if entries != [] {
      var n := |entries| - 1;
      var init := entries[..n];
      var last := entries[n];
      var a := CopiedAttributes(init, root);
      CopiedAttributesSpec(init, root);
      CopiedKeysAreEarlierKeys(init, root);
      UniqueKeyNotEarlier(entries, n);
      if last.0 == "Parent" || root(last.1) == ConvertedNull {
        assert CopiedAttributes(entries, root) == a;
        forall i | 0 <= i < |entries| && entries[i].0 != "Parent"
          ensures Dict.Lookup(a, entries[i].0) ==
            (if root(entries[i].1) == ConvertedNull then None else Some(root(entries[i].1)))
        {
          if i == n {
            Dict.LookupAbsent(a, last.0);
          } else {
            assert entries[i] == init[i];
          }
        }
      } else {
        Dict.PutAbsent(a, last.0, root(last.1));
        Dict.PutKeepsKeysUnique(a, last.0, root(last.1));
        assert CopiedAttributes(entries, root) == Dict.Put(a, last.0, root(last.1));
        forall i | 0 <= i < |entries| && entries[i].0 != "Parent"
          ensures Dict.Lookup(Dict.Put(a, last.0, root(last.1)), entries[i].0) ==
            (if root(entries[i].1) == ConvertedNull then None else Some(root(entries[i].1)))
        {
          if i == n {
            Dict.LookupPut(a, last.0, root(last.1));
          } else {
            assert entries[i] == init[i];
            Dict.LookupPutOther(a, last.0, root(last.1), entries[i].0);
          }
        }
      }
    }
  }
}

/**
 * The writer for dictionary objects (section 7.3.7 of ISO 32000-1): an
 * object already written through its indirect reference (section 7.3.10) is
 * skipped; otherwise every referenceable composite value is replaced by its
 * reference and queued, the dictionary is written as `<<key value ...>>`
 * (inside `obj`/`endobj` when it starts an indirect object), and the queued
 * values are written after it.
 *
 * The destination is a sequence of tokens: literal text, and each call to the
 * root transformer or to the start/end object helpers, which are not part of
 * this model.
 */
module WriteDictionary {
  import opened Wrappers
  import Dict
  import opened Sequences

  /** An indirect reference: object number, generation number and, once written, its byte offset. */
  datatype Reference = Reference(objectNumber: Option<nat>, generationNumber: Option<nat>, byteOffset: Option<nat>)

  /** The composite types whose values may be written as indirect objects. */
  datatype CompositeKind = DictionaryKind | ListKind | StreamKind | ImageKind | ElementKind

  /**
   * A value the writer may meet. A composite has an identity, its
   * `can_be_referenced()` answer, the reference `get_reference()` returns, and,
   * for a dictionary or stream, its entries; the entries of other composites
   * are empty here.
   */
  datatype Value =
    | Composite(kind: CompositeKind, id: nat, referenceable: bool, reference: Option<Reference>,
                entries: Dict.Entries<string, Value>)
    | Name(name: string)
    | Number(number: real)
    | Text(text: string)
    | Boolean(truth: bool)
    | Null
    | ReferenceValue(target: Reference)

  /** One step of output: literal text, a value handed to the root transformer, or an object start or end. */
  datatype Token = Raw(text: string) | Delegated(value: Value) | StartObject(object: Value) | EndObject(object: Value)

  /** The assertion that fails: the object is not a dictionary, or its reference has no object number. */
  datatype Error = NotADictionary | MissingObjectNumber

  /** The output stream and the references already written. */
  class WriteContext {
    var destination: seq<Token>
    var resolvedReferences: seq<Reference>

    constructor (resolved: seq<Reference>)
      ensures destination == [] && resolvedReferences == resolved
    {
      destination := [];
      resolvedReferences := resolved;
    }

    method Write(t: Token)
      modifies this
      ensures destination == old(destination) + [t] && resolvedReferences == old(resolvedReferences)
    {
      destination := destination + [t];
    }

    method Resolve(ref: Reference)
      modifies this
      ensures resolvedReferences == old(resolvedReferences) + [ref] && destination == old(destination)
    {
      resolvedReferences := resolvedReferences + [ref];
    }
  }

  /** `can_be_transformed`: a Dictionary, which includes a Stream. */
  predicate CanBeTransformed(v: Value)
  {
    v.Composite? && (v.kind == DictionaryKind || v.kind == StreamKind)
  }

  /** A value that is written as an indirect object of its own. */
  predicate Referenceable(v: Value)
  {
    v.Composite? && v.referenceable
  }

  /** The value stored in `out_value` for `v`, with `referenceFor` standing for `get_reference`. */
  function OutEntry(v: Value, referenceFor: Value -> Reference): Value
  {
    if Referenceable(v) then ReferenceValue(referenceFor(v)) else v
  }

  /** `out_value`: each entry with its value replaced as `OutEntry` says. */
  function OutValue(entries: Dict.Entries<string, Value>, referenceFor: Value -> Reference): (out: Dict.Entries<string, Value>)
  {
    seq(|entries|, i requires 0 <= i < |entries| => (entries[i].0, OutEntry(entries[i].1, referenceFor)))
  }

  /** `queue`: the referenceable values, in the order of their keys. */
  function Queue(entries: Dict.Entries<string, Value>): seq<Value>
  {
    if entries == [] then []
    else
      var last := entries[|entries| - 1].1;
      Queue(entries[..|entries| - 1]) + (if Referenceable(last) then [last] else [])
  }

  /** The values of the entries, in order. */
  function Values(entries: Dict.Entries<string, Value>): seq<Value>
  {
    seq(|entries|, i requires 0 <= i < |entries| => entries[i].1)
  }

  /** The tokens of one pair: the key, a space, the value. */
  function PairTokens(p: (string, Value)): seq<Token>
  {
    [Delegated(Name(p.0)), Raw(" "), Delegated(p.1)]
  }

  /** The pairs, separated by one space each. */
  function PairsTokens(out: Dict.Entries<string, Value>): seq<Token>
  {
    if out == [] then []
    else PairTokens(out[0]) + (if |out| == 1 then [] else [Raw(" ")] + PairsTokens(out[1..]))
  }

  /** The dictionary as written at the current location. */
  function DictionaryTokens(out: Dict.Entries<string, Value>): seq<Token>
  {
    [Raw("<<")] + PairsTokens(out) + [Raw(">>\n")]
  }

  /** The queued values handed to the root transformer, in order. */
  function Delegations(queue: seq<Value>): seq<Token>
  {
    seq(|queue|, i requires 0 <= i < |queue| => Delegated(queue[i]))
  }

  /** What a call does: its result, the tokens it writes and the resolved references afterwards. */
  datatype Effect = Effect(result: Result<Option<Dict.Entries<string, Value>>, Error>, written: seq<Token>,
                           resolved: seq<Reference>)

  /** Whether a call opens an indirect object: the reference has not been given a byte offset yet. */
  predicate StartsObject(obj: Value)
    requires obj.Composite?
  {
    obj.reference.Some? && obj.reference.value.byteOffset.None?
  }

  /** The effect of `transform(obj)` given the references already resolved. */
  function Write(obj: Value, resolved: seq<Reference>, referenceFor: Value -> Reference): Effect
  {
    if !CanBeTransformed(obj) then Effect(Err(NotADictionary), [], resolved)
    else if obj.reference.Some? && obj.reference.value.objectNumber.None? then Effect(Err(MissingObjectNumber), [], resolved)
    else if obj.reference.Some? && obj.reference.value in resolved then Effect(Ok(None), [], resolved)
    else
      var out := OutValue(obj.entries, referenceFor);
      var started := StartsObject(obj);
      Effect(Ok(Some(out)),
             (if started then [StartObject(obj)] else []) + DictionaryTokens(out)
               + (if started then [EndObject(obj)] else []) + Delegations(Queue(obj.entries)),
             resolved + (if obj.reference.Some? then [obj.reference.value] else []))
  }

  /**
   * `transform(object_to_transform, context)`: the result, the tokens written
   * and the references resolved are those the specification function
   * `Write` gives.
   */
  method Transform(obj: Value, context: WriteContext, referenceFor: Value -> Reference)
    returns (r: Result<Option<Dict.Entries<string, Value>>, Error>)
    requires obj.Composite? ==> Dict.UniqueKeys(obj.entries)
    modifies context
    ensures var e := Write(obj, old(context.resolvedReferences), referenceFor);
      r == e.result && context.destination == old(context.destination) + e.written
      && context.resolvedReferences == e.resolved
  {
    if !CanBeTransformed(obj) {
      return Err(NotADictionary);
    }
    var objectRef := obj.reference;
    // avoid resolving objects twice
    if objectRef.Some? && objectRef.value in context.resolvedReferences {
      if objectRef.value.objectNumber.None? {
        return Err(MissingObjectNumber);
      }
      return Ok(None);
    }
    var outValue, queue := CollectEntries(obj.entries, referenceFor);
    ghost var before := context.destination;
    var startedObject := false;
    if objectRef.Some? {
      if objectRef.value.objectNumber.None? {
        return Err(MissingObjectNumber);
      }
      if objectRef.value.byteOffset.None? {
        startedObject := true;
        context.Write(StartObject(obj));
      }
      context.Resolve(objectRef.value);
    }
    ghost var start := if startedObject then [StartObject(obj)] else [];
    ghost var end := if startedObject then [EndObject(obj)] else [];
    assert context.destination == before + start;
    WriteDictionaryAt(context, outValue);
    if startedObject {
      context.Write(EndObject(obj));
    }
    assert context.destination == before + start + DictionaryTokens(outValue) + end;
    WriteQueued(context, queue);
    Regroup(before, start, DictionaryTokens(outValue), end, Delegations(queue));
    r := Ok(Some(outValue));
  }

  lemma {:induction false} Regroup(before: seq<Token>, a: seq<Token>, b: seq<Token>, c: seq<Token>, d: seq<Token>)
    ensures before + a + b + c + d == before + (a + b + c + d)
  {
  }

  /** The loop that fills `out_value` and `queue`; specified by the functions `OutValue` and `Queue`. */
  method CollectEntries(entries: Dict.Entries<string, Value>, referenceFor: Value -> Reference)
    returns (outValue: Dict.Entries<string, Value>, queue: seq<Value>)
    requires Dict.UniqueKeys(entries)
    ensures outValue == OutValue(entries, referenceFor) && queue == Queue(entries)
  {
    outValue := [];
    queue := [];
    var i := 0;
    while i < |entries|
      invariant 0 <= i <= |entries|
      invariant outValue == OutValue(entries[..i], referenceFor) && queue == Queue(entries[..i])
    {
      var (k, v) := entries[i];
      assert entries[..i + 1] == entries[..i] + [entries[i]];
      assert Dict.Keys(outValue) == Dict.Keys(entries[..i]);
      Dict.PutAbsent(outValue, k, OutEntry(v, referenceFor));
      if Referenceable(v) {
        outValue := Dict.Put(outValue, k, ReferenceValue(referenceFor(v)));
        queue := queue + [v];
      } else {
        outValue := Dict.Put(outValue, k, v);
      }
      i := i + 1;
    }
    assert entries[..i] == entries;
  }

  /** Writes `<<`, the pairs with one space between them, and `>>` and a newline. */
  method WriteDictionaryAt(context: WriteContext, outValue: Dict.Entries<string, Value>)
    modifies context
    ensures context.destination == old(context.destination) + DictionaryTokens(outValue)
    ensures context.resolvedReferences == old(context.resolvedReferences)
  {
    var head := context.destination;
    context.Write(Raw("<<"));
    var n := |outValue|;
    var i := 0;
    while i < n
      invariant 0 <= i <= n
      invariant context.resolvedReferences == old(context.resolvedReferences)
      invariant context.destination == head + [Raw("<<")] + PairsTokens(outValue[..i]) + Separator(i, n)
    {
      var (k, v) := outValue[i];
      ghost var before := context.destination;
      context.Write(Delegated(Name(k)));
      context.Write(Raw(" "));
      context.Write(Delegated(v));
      if i != n - 1 {
        context.Write(Raw(" "));
      }
      assert context.destination == before + PairTokens(outValue[i]) + Separator(i + 1, n);
      PairsStep(head + [Raw("<<")], outValue, i);
      i := i + 1;
    }
    assert outValue[..i] == outValue;
    context.Write(Raw(">>\n"));
  }

  /** The space written after the first `i` of `n` pairs: one unless none or all of them are written. */
  function Separator(i: nat, n: nat): seq<Token>
  {
    if 0 < i < n then [Raw(" ")] else []
  }

  /** Writing pair `i` and the space after it extends the written pairs by one. */
  lemma {:induction false} PairsStep(prefix: seq<Token>, out: Dict.Entries<string, Value>, i: nat)
    requires i < |out|
    ensures prefix + PairsTokens(out[..i]) + Separator(i, |out|) + PairTokens(out[i]) + Separator(i + 1, |out|)
         == prefix + PairsTokens(out[..i + 1]) + Separator(i + 1, |out|)
  {
    assert out[..i + 1] == out[..i] + [out[i]];
    PairsTokensSnoc(out[..i], out[i]);
  }

  /** Hands each queued value to the root transformer, in order. */
  method WriteQueued(context: WriteContext, queue: seq<Value>)
    modifies context
    ensures context.destination == old(context.destination) + Delegations(queue)
    ensures context.resolvedReferences == old(context.resolvedReferences)
  {
    var i := 0;
    while i < |queue|
      invariant 0 <= i <= |queue|
      invariant context.resolvedReferences == old(context.resolvedReferences)
      invariant context.destination == old(context.destination) + Delegations(queue[..i])
    {
      assert Delegations(queue[..i + 1]) == Delegations(queue[..i]) + [Delegated(queue[i])];
      context.Write(Delegated(queue[i]));
      i := i + 1;
    }
    assert queue[..i] == queue;
  }

  // ----------------------------------------------------------------------
  // Lemmas

  lemma {:induction false} PairsTokensSnoc(out: Dict.Entries<string, Value>, p: (string, Value))
    ensures PairsTokens(out + [p]) == PairsTokens(out) + (if out == [] then [] else [Raw(" ")]) + PairTokens(p)
  {
    if out != [] {
      assert (out + [p])[1..] == out[1..] + [p];
      PairsTokensSnoc(out[1..], p);
    }
  }

  /** Reads the pairs back from the tokens between `<<` and `>>`. */
  function ParsePairs(ts: seq<Token>): Option<Dict.Entries<string, Value>>
    decreases |ts|
  {
    if ts == [] then Some([])
    else if |ts| >= 3 && ts[0].Delegated? && ts[0].value.Name? && ts[1] == Raw(" ") && ts[2].Delegated? then
      var pair := (ts[0].value.name, ts[2].value);
      if |ts| == 3 then Some([pair])
      else if |ts| > 4 && ts[3] == Raw(" ") then
        match ParsePairs(ts[4..])
        case None => None
        case Some(rest) => Some([pair] + rest)
      else None
    else None
  }

  /** Reads a written dictionary back. */
  function ParseDictionary(ts: seq<Token>): Option<Dict.Entries<string, Value>>
  {
    if |ts| >= 2 && ts[0] == Raw("<<") && ts[|ts| - 1] == Raw(">>\n") then ParsePairs(ts[1..|ts| - 1]) else None
  }

  /** The written pairs read back as the pairs that were written. */
  lemma {:induction false} ParsePairsTokens(out: Dict.Entries<string, Value>)
    ensures ParsePairs(PairsTokens(out)) == Some(out)
    ensures PairsTokens(out) == [] <==> out == []
  {
    if out != [] {
      var ts := PairsTokens(out);
      if |out| > 1 {
        ParsePairsTokens(out[1..]);
        assert ts[4..] == PairsTokens(out[1..]);
        assert [out[0]] + out[1..] == out;
      } else {
        assert [out[0]] == out;
      }
    }
  }

  /** A written dictionary reads back as `out_value`, keys and values in order. */
  lemma {:induction false} DictionaryRoundTrip(out: Dict.Entries<string, Value>)
    ensures ParseDictionary(DictionaryTokens(out)) == Some(out)
  {
    ParsePairsTokens(out);
    var ts := DictionaryTokens(out);
    assert ts[1..|ts| - 1] == PairsTokens(out);
  }

  /** `out_value` has the keys of the input in their order, and maps each key to the input's value, or to its reference when that value is written separately. */
  lemma {:induction false} OutValueSpec(entries: Dict.Entries<string, Value>, referenceFor: Value -> Reference, k: string)
    ensures Dict.Keys(OutValue(entries, referenceFor)) == Dict.Keys(entries)
    ensures Dict.Lookup(OutValue(entries, referenceFor), k) ==
      match Dict.Lookup(entries, k)
      case None => None
      case Some(v) => Some(if Referenceable(v) then ReferenceValue(referenceFor(v)) else v)
  {
    if entries != [] {
      OutValueSpec(entries[1..], referenceFor, k);
      assert OutValue(entries, referenceFor)[1..] == OutValue(entries[1..], referenceFor);
    }
  }

  /** The queue holds exactly the referenceable values of the input, one per entry holding it, in key order. */
  lemma {:induction false} QueueSpec(entries: Dict.Entries<string, Value>)
    ensures forall v :: v in Queue(entries) <==> v in Values(entries) && Referenceable(v)
    ensures forall v :: multiset(Queue(entries))[v] == if Referenceable(v) then multiset(Values(entries))[v] else 0
    ensures IsSubsequence(Queue(entries), Values(entries))
    ensures |Queue(entries)| <= |entries|
  {
    QueueCounts(entries);
    QueueOrder(entries);
  }

  /** Each value is queued as often as a referenceable value occurs among the entries. */
  lemma {:induction false} QueueCounts(entries: Dict.Entries<string, Value>)
    ensures forall v :: multiset(Queue(entries))[v] == if Referenceable(v) then multiset(Values(entries))[v] else 0
  {
    if entries != [] {
      var init := entries[..|entries| - 1];
      var last := entries[|entries| - 1].1;
      QueueCounts(init);
      assert Values(entries) == Values(init) + [last];
      assert multiset(Values(entries)) == multiset(Values(init)) + multiset{last};
      if Referenceable(last) {
        assert multiset(Queue(entries)) == multiset(Queue(init)) + multiset{last};
      } else {
        assert Queue(entries) == Queue(init);
      }
    }
  }

  /** The queue keeps the order of the entries, and has at most one value per entry. */
  lemma {:induction false} QueueOrder(entries: Dict.Entries<string, Value>)
    ensures IsSubsequence(Queue(entries), Values(entries))
    ensures |Queue(entries)| <= |entries|
  {
    if entries != [] {
      var init := entries[..|entries| - 1];
      var last := entries[|entries| - 1].1;
      QueueOrder(init);
      assert Values(entries) == Values(init) + [last];
      if Referenceable(last) {
        assert Queue(entries) == Queue(init) + [last];
        SubsequenceSnoc(Queue(init), Values(init), last);
      } else {
        assert Queue(entries) == Queue(init);
        SubsequenceExtend(Queue(init), Values(init), last);
      }
    }
  }

  /**
   * `transform` refuses exactly the values `can_be_transformed` rejects, the
   * values that are not a Dictionary or a Stream, and then writes nothing
   * and resolves nothing.
   */
  lemma {:induction false} RefusesExactlyWhatCannotBeTransformed(v: Value, resolved: seq<Reference>,
                                                                 referenceFor: Value -> Reference)
    ensures Write(v, resolved, referenceFor).result == Err(NotADictionary) <==> !CanBeTransformed(v)
    ensures !CanBeTransformed(v) <==> !v.Composite? || v.kind in {ListKind, ImageKind, ElementKind}
    ensures !CanBeTransformed(v) ==>
      Write(v, resolved, referenceFor).written == [] && Write(v, resolved, referenceFor).resolved == resolved
  {
  }

  /**
   * Writing a dictionary that has a reference records the reference, so
   * writing it again writes nothing and returns None.
   */
  lemma {:induction false} SecondWriteIsSkipped(obj: Value, resolved: seq<Reference>, referenceFor: Value -> Reference)
    requires obj.Composite? && obj.reference.Some?
    requires Write(obj, resolved, referenceFor).result.Ok?
    ensures obj.reference.value in Write(obj, resolved, referenceFor).resolved
    ensures var again := Write(obj, Write(obj, resolved, referenceFor).resolved, referenceFor);
      again.result == Ok(None) && again.written == [] && again.resolved == Write(obj, resolved, referenceFor).resolved
  {
  }

  /**
   * A written dictionary is the `<<...>>` tokens, bracketed by a start and an
   * end of object exactly when its reference has no byte offset yet, followed
   * by the queued values; it reads back as the result.
   */
  lemma {:induction false} WrittenDictionary(obj: Value, resolved: seq<Reference>, referenceFor: Value -> Reference)
    requires Write(obj, resolved, referenceFor).result.Ok?
    requires Write(obj, resolved, referenceFor).result.value.Some?
    ensures var e := Write(obj, resolved, referenceFor);
      var out := e.result.value.value;
      var s := if StartsObject(obj) then 1 else 0;
      var d := |DictionaryTokens(out)|;
      && CanBeTransformed(obj)
      && |e.written| == s + d + s + |Queue(obj.entries)|
      && ParseDictionary(e.written[s..s + d]) == Some(out)
      && e.written[..s] == (if StartsObject(obj) then [StartObject(obj)] else [])
      && e.written[s + d..s + d + s] == (if StartsObject(obj) then [EndObject(obj)] else [])
      && e.written[s + d + s..] == Delegations(Queue(obj.entries))
  {
    var e := Write(obj, resolved, referenceFor);
    var out := e.result.value.value;
    var s := if StartsObject(obj) then 1 else 0;
    var d := |DictionaryTokens(out)|;
    DictionaryRoundTrip(out);
    assert e.written[s..s + d] == DictionaryTokens(out);
  }
}

/**
 * Redaction of log values over arbitrary finite object graphs, cyclic or shared
 * (src/config/logRedaction.ts, redactLogValue). The sensitive-key pattern is a parameter.
 */
module LogRedaction {
  import opened Sequences
  import opened CardNumbers

  const CIRCULAR := "[Circular]"

  /** A value as the program holds it; Prim stands for null, numbers, booleans and the like. */
  datatype Value = Str(s: string) | Prim(p: int) | Ref(id: nat)

  datatype Field = Field(key: string, value: Value)

  datatype Object = Arr(items: seq<Value>) | Rec(fields: seq<Field>)

  type Heap = map<nat, Object>

  /** The redacted value; every object in it is new. */
  datatype Tree = TStr(s: string) | TPrim(p: int) | TArr(items: seq<Tree>) | TRec(fields: seq<TField>)

  datatype TField = TField(key: string, value: Tree)

  type KeyTest = string -> bool

  ghost predicate Known(h: Heap, v: Value) { v.Ref? ==> v.id in h }

  /** Every reference leads to an object. */
  ghost predicate Closed(h: Heap) {
    && (forall id, i :: id in h && h[id].Arr? && 0 <= i < |h[id].items| ==> Known(h, h[id].items[i]))
    && (forall id, i :: id in h && h[id].Rec? && 0 <= i < |h[id].fields| ==> Known(h, h[id].fields[i].value))
  }

  ghost predicate AllKnown(h: Heap, vs: seq<Value>) { forall i :: 0 <= i < |vs| ==> Known(h, vs[i]) }

  ghost predicate FieldsKnown(h: Heap, fs: seq<Field>) { forall i :: 0 <= i < |fs| ==> Known(h, fs[i].value) }

  // ----- the recursion of the source, the seen set threaded through -----

  function Redact(sensitive: KeyTest, h: Heap, v: Value, key: Option<string>, seen: set<nat>)
    : (r: (Tree, set<nat>))
    requires Closed(h) && Known(h, v)
    ensures seen <= r.1
    decreases h.Keys - seen, 0
  {
    if key.Some? && sensitive(key.value) then (TStr(REDACTED), seen)
    else match v
      case Str(s) => (TStr(RedactPii(s)), seen)
      case Prim(p) => (TPrim(p), seen)
      case Ref(id) =>
        if id in seen then (TStr(CIRCULAR), seen)
        else
          match h[id]
          case Arr(items) =>
            var (ts, after) := RedactItems(sensitive, h, items, seen + {id});
            (TArr(ts), after)
          case Rec(fields) =>
            var (ts, after) := RedactFields(sensitive, h, fields, seen + {id});
            (TRec(ts), after)
  }

  function RedactItems(sensitive: KeyTest, h: Heap, items: seq<Value>, seen: set<nat>)
    : (r: (seq<Tree>, set<nat>))
    requires Closed(h) && AllKnown(h, items)
    ensures seen <= r.1 && |r.0| == |items|
    decreases h.Keys - seen, |items| + 1
  {
    if items == [] then ([], seen)
    else
      var (t, between) := Redact(sensitive, h, items[0], None, seen);
      ShrinkingRest(h, seen, between);
      var (ts, after) := RedactItems(sensitive, h, items[1..], between);
      ([t] + ts, after)
  }

  function RedactFields(sensitive: KeyTest, h: Heap, fields: seq<Field>, seen: set<nat>)
    : (r: (seq<TField>, set<nat>))
    requires Closed(h) && FieldsKnown(h, fields)
    ensures seen <= r.1 && |r.0| == |fields|
    ensures forall i :: 0 <= i < |fields| ==> r.0[i].key == fields[i].key
    decreases h.Keys - seen, |fields| + 1
  {
    if fields == [] then ([], seen)
    else
      var (t, between) := Redact(sensitive, h, fields[0].value, Some(fields[0].key), seen);
      ShrinkingRest(h, seen, between);
      var (ts, after) := RedactFields(sensitive, h, fields[1..], between);
      ([TField(fields[0].key, t)] + ts, after)
  }

  lemma ShrinkingRest(h: Heap, seen: set<nat>, more: set<nat>)
    requires seen <= more
    ensures h.Keys - more == h.Keys - seen || h.Keys - more < h.Keys - seen
  {
  }

  /** One round of the loop over an array, `done` being the result so far. */
  lemma UnrollItems(sensitive: KeyTest, h: Heap, items: seq<Value>, i: nat, done: seq<Tree>, seen: set<nat>)
    requires Closed(h) && AllKnown(h, items) && i < |items|
    ensures AllKnown(h, items[i..]) && AllKnown(h, items[i + 1..])
    ensures var (t, between) := Redact(sensitive, h, items[i], None, seen);
      var rest := RedactItems(sensitive, h, items[i + 1..], between);
      && done + RedactItems(sensitive, h, items[i..], seen).0 == done + [t] + rest.0
      && RedactItems(sensitive, h, items[i..], seen).1 == rest.1
  {
    assert items[i..][1..] == items[i + 1..];
  }

  lemma UnrollFields(sensitive: KeyTest, h: Heap, fields: seq<Field>, i: nat, done: seq<TField>, seen: set<nat>)
    requires Closed(h) && FieldsKnown(h, fields) && i < |fields|
    ensures FieldsKnown(h, fields[i..]) && FieldsKnown(h, fields[i + 1..])
    ensures var (t, between) := Redact(sensitive, h, fields[i].value, Some(fields[i].key), seen);
      var rest := RedactFields(sensitive, h, fields[i + 1..], between);
      && done + RedactFields(sensitive, h, fields[i..], seen).0 == done + [TField(fields[i].key, t)] + rest.0
      && RedactFields(sensitive, h, fields[i..], seen).1 == rest.1
  {
    assert fields[i..][1..] == fields[i + 1..];
  }

  /** The recursion with the mutated seen set and the result built in a loop. */
  class Redactor {
    const heap: Heap
    const sensitive: KeyTest
    var seen: set<nat>

    constructor (heap: Heap, sensitive: KeyTest)
      ensures seen == {} && this.heap == heap && this.sensitive == sensitive
    {
      this.heap, this.sensitive, seen := heap, sensitive, {};
    }

    method RedactLogValue(v: Value, key: Option<string>) returns (t: Tree)
      requires Closed(heap) && Known(heap, v)
      modifies this
      ensures (t, seen) == Redact(sensitive, heap, v, key, old(seen))
      decreases heap.Keys - seen, 0
    {
      if key.Some? && sensitive(key.value) {
        return TStr(REDACTED);
      }
      match v {
        case Str(s) =>
          return TStr(RedactPii(s));
        case Prim(p) =>
          return TPrim(p);
        case Ref(id) =>
          if id in seen {
            return TStr(CIRCULAR);
          }
          seen := seen + {id};
          match heap[id] {
            case Arr(items) =>
              var ts := RedactArray(items);
              return TArr(ts);
            case Rec(fields) =>
              var ts := RedactRecord(fields);
              return TRec(ts);
          }
      }
    }

    method RedactArray(items: seq<Value>) returns (ts: seq<Tree>)
      requires Closed(heap) && AllKnown(heap, items)
      modifies this
      ensures (ts, seen) == RedactItems(sensitive, heap, items, old(seen))
      decreases heap.Keys - seen, |items| + 1
    {
      ts := [];
      var i := 0;
      ghost var all := RedactItems(sensitive, heap, items, seen);
      assert items[0..] == items && [] + all.0 == all.0;
      while i < |items|
        invariant 0 <= i <= |items| && old(seen) <= seen
        invariant var rest := RedactItems(sensitive, heap, items[i..], seen);
          all.0 == ts + rest.0 && all.1 == rest.1
      {
        UnrollItems(sensitive, heap, items, i, ts, seen);
        ShrinkingRest(heap, old(seen), seen);
        var t := RedactLogValue(items[i], None);
        ts := ts + [t];
        i := i + 1;
      }
      assert items[i..] == [] && ts + [] == ts;
    }

    method RedactRecord(fields: seq<Field>) returns (ts: seq<TField>)
      requires Closed(heap) && FieldsKnown(heap, fields)
      modifies this
      ensures (ts, seen) == RedactFields(sensitive, heap, fields, old(seen))
      decreases heap.Keys - seen, |fields| + 1
    {
      ts := [];
      var i := 0;
      ghost var all := RedactFields(sensitive, heap, fields, seen);
      assert fields[0..] == fields && [] + all.0 == all.0;
      while i < |fields|
        invariant 0 <= i <= |fields| && old(seen) <= seen
        invariant var rest := RedactFields(sensitive, heap, fields[i..], seen);
          all.0 == ts + rest.0 && all.1 == rest.1
      {
        UnrollFields(sensitive, heap, fields, i, ts, seen);
        ShrinkingRest(heap, old(seen), seen);
        var t := RedactLogValue(fields[i].value, Some(fields[i].key));
        ts := ts + [TField(fields[i].key, t)];
        i := i + 1;
      }
      assert fields[i..] == [] && ts + [] == ts;
    }
  }

  // ----- nothing card-like is left -----

  /** No string value in the tree contains a card-like number, and sensitive keys show the marker only. */
  ghost predicate Cleared(sensitive: KeyTest, t: Tree) {
    match t
    case TStr(s) => CardFree(s)
    case TPrim(_) => true
    case TArr(items) => ItemsCleared(sensitive, items)
    case TRec(fields) => FieldsCleared(sensitive, fields)
  }

  ghost predicate ItemsCleared(sensitive: KeyTest, ts: seq<Tree>) {
    ts == [] || (Cleared(sensitive, ts[0]) && ItemsCleared(sensitive, ts[1..]))
  }

  ghost predicate FieldsCleared(sensitive: KeyTest, ts: seq<TField>) {
    ts == [] ||
    (&& Cleared(sensitive, ts[0].value)
     && (sensitive(ts[0].key) ==> ts[0].value == TStr(REDACTED))
     && FieldsCleared(sensitive, ts[1..]))
  }

  lemma FixedStringsAreCardFree()
    ensures CardFree(REDACTED) && CardFree(CIRCULAR)
  {
    MarkerIsShort();
    var redacted, circular := REDACTED, CIRCULAR;
    Bracketed(redacted, MARKER_WORD, "");
    BracketedIsClean(redacted + "", MARKER_WORD, "");
    assert redacted + "" == redacted;
    CleanIsCardFree(redacted);
    CircularIsClean(circular, "Circular");
    CleanIsCardFree(circular);
  }

  lemma CircularIsClean(text: string, word: string)
    requires text == "[" + word + "]" && word == "Circular"
    ensures Clean(text, false)
  {
    assert forall k :: 0 <= k < |word| ==> IsWordChar(word[k]);
    Bracketed(text, word, "");
    assert text + "" == text;
    BracketedIsClean(text, word, "");
  }

  lemma {:induction false} ResultIsCleared(
    sensitive: KeyTest, h: Heap, v: Value, key: Option<string>, seen: set<nat>)
    requires Closed(h) && Known(h, v)
    ensures Cleared(sensitive, Redact(sensitive, h, v, key, seen).0)
    decreases h.Keys - seen, 0
  {
    FixedStringsAreCardFree();
    if key.Some? && sensitive(key.value) {
    } else if v.Str? {
      RedactedIsCardFree(v.s);
    } else if v.Ref? && v.id !in seen {
      match h[v.id]
      case Arr(items) => ItemsAreCleared(sensitive, h, items, seen + {v.id});
      case Rec(fields) => FieldsAreCleared(sensitive, h, fields, seen + {v.id});
    }
  }

  lemma {:induction false} ItemsAreCleared(sensitive: KeyTest, h: Heap, items: seq<Value>, seen: set<nat>)
    requires Closed(h) && AllKnown(h, items)
    ensures ItemsCleared(sensitive, RedactItems(sensitive, h, items, seen).0)
    decreases h.Keys - seen, |items| + 1
  {
    if items != [] {
      var between := Redact(sensitive, h, items[0], None, seen).1;
      ShrinkingRest(h, seen, between);
      ResultIsCleared(sensitive, h, items[0], None, seen);
      ItemsAreCleared(sensitive, h, items[1..], between);
      assert RedactItems(sensitive, h, items, seen).0[1..] == RedactItems(sensitive, h, items[1..], between).0;
    }
  }

  lemma {:induction false} FieldsAreCleared(sensitive: KeyTest, h: Heap, fields: seq<Field>, seen: set<nat>)
    requires Closed(h) && FieldsKnown(h, fields)
    ensures FieldsCleared(sensitive, RedactFields(sensitive, h, fields, seen).0)
    decreases h.Keys - seen, |fields| + 1
  {
    if fields != [] {
      var between := Redact(sensitive, h, fields[0].value, Some(fields[0].key), seen).1;
      ShrinkingRest(h, seen, between);
      ResultIsCleared(sensitive, h, fields[0].value, Some(fields[0].key), seen);
      FieldsAreCleared(sensitive, h, fields[1..], between);
      assert RedactFields(sensitive, h, fields, seen).0[1..] == RedactFields(sensitive, h, fields[1..], between).0;
    }
  }

  // ----- sensitive values have no influence -----

  ghost predicate FieldsAgree(sensitive: KeyTest, a: seq<Field>, b: seq<Field>) {
    |a| == |b| && forall i :: 0 <= i < |a| ==> a[i].key == b[i].key && (!sensitive(a[i].key) ==> a[i].value == b[i].value)
  }

  ghost predicate ObjectsAgree(sensitive: KeyTest, a: Object, b: Object) {
    match a
    case Arr(_) => a == b
    case Rec(fields) => b.Rec? && FieldsAgree(sensitive, fields, b.fields)
  }

  /** The two graphs differ at most in what is stored under sensitive keys. */
  ghost predicate HeapsAgree(sensitive: KeyTest, h: Heap, h': Heap) {
    h.Keys == h'.Keys && forall id :: id in h ==> ObjectsAgree(sensitive, h[id], h'[id])
  }

  /** Graphs that differ only under sensitive keys are redacted to the same result. */
  lemma {:induction false} SensitiveValuesDoNotLeak(
    sensitive: KeyTest, h: Heap, h': Heap, v: Value, v': Value, key: Option<string>, seen: set<nat>)
    requires Closed(h) && Closed(h') && HeapsAgree(sensitive, h, h') && Known(h, v) && Known(h', v')
    requires v == v' || (key.Some? && sensitive(key.value))
    ensures Redact(sensitive, h, v, key, seen) == Redact(sensitive, h', v', key, seen)
    decreases h.Keys - seen, 0
  {
    if !(key.Some? && sensitive(key.value)) && v.Ref? && v.id !in seen {
      assert ObjectsAgree(sensitive, h[v.id], h'[v.id]);
      match h[v.id]
      case Arr(items) => ItemsDoNotLeak(sensitive, h, h', items, seen + {v.id});
      case Rec(fields) => FieldsDoNotLeak(sensitive, h, h', fields, h'[v.id].fields, seen + {v.id});
    }
  }

  lemma {:induction false} ItemsDoNotLeak(
    sensitive: KeyTest, h: Heap, h': Heap, items: seq<Value>, seen: set<nat>)
    requires Closed(h) && Closed(h') && HeapsAgree(sensitive, h, h') && AllKnown(h, items) && AllKnown(h', items)
    ensures RedactItems(sensitive, h, items, seen) == RedactItems(sensitive, h', items, seen)
    decreases h.Keys - seen, |items| + 1
  {
    if items != [] {
      var between := Redact(sensitive, h, items[0], None, seen).1;
      ShrinkingRest(h, seen, between);
      SensitiveValuesDoNotLeak(sensitive, h, h', items[0], items[0], None, seen);
      ItemsDoNotLeak(sensitive, h, h', items[1..], between);
    }
  }

  lemma {:induction false} FieldsDoNotLeak(
    sensitive: KeyTest, h: Heap, h': Heap, fields: seq<Field>, fields': seq<Field>, seen: set<nat>)
    requires Closed(h) && Closed(h') && HeapsAgree(sensitive, h, h')
    requires FieldsKnown(h, fields) && FieldsKnown(h', fields') && FieldsAgree(sensitive, fields, fields')
    ensures RedactFields(sensitive, h, fields, seen) == RedactFields(sensitive, h', fields', seen)
    decreases h.Keys - seen, |fields| + 1
  {
    if fields != [] {
      var between := Redact(sensitive, h, fields[0].value, Some(fields[0].key), seen).1;
      ShrinkingRest(h, seen, between);
      SensitiveValuesDoNotLeak(sensitive, h, h', fields[0].value, fields'[0].value, Some(fields[0].key), seen);
      FieldsDoNotLeak(sensitive, h, h', fields[1..], fields'[1..], between);
    }
  }

  // ----- redacting a result again -----

  function NodeCount(t: Tree): nat {
    match t
    case TStr(_) => 0
    case TPrim(_) => 0
    case TArr(items) => 1 + ItemCount(items)
    case TRec(fields) => 1 + FieldCount(fields)
  }

  function ItemCount(ts: seq<Tree>): nat {
    if ts == [] then 0 else NodeCount(ts[0]) + ItemCount(ts[1..])
  }

  function FieldCount(ts: seq<TField>): nat {
    if ts == [] then 0 else NodeCount(ts[0].value) + FieldCount(ts[1..])
  }

  /** The heap holds the tree at `v`, in objects numbered from `lo` in the order they are met. */
  ghost predicate Holds(h: Heap, v: Value, t: Tree, lo: nat)
    decreases t
  {
    match t
    case TStr(s) => v == Str(s)
    case TPrim(p) => v == Prim(p)
    case TArr(items) => v == Ref(lo) && lo in h && h[lo].Arr? && HoldsItems(h, h[lo].items, items, lo + 1)
    case TRec(fields) => v == Ref(lo) && lo in h && h[lo].Rec? && HoldsFields(h, h[lo].fields, fields, lo + 1)
  }

  ghost predicate HoldsItems(h: Heap, vs: seq<Value>, ts: seq<Tree>, lo: nat)
    decreases ts
  {
    |vs| == |ts| && (ts == [] ||
      (Holds(h, vs[0], ts[0], lo) && HoldsItems(h, vs[1..], ts[1..], lo + NodeCount(ts[0]))))
  }

  ghost predicate HoldsFields(h: Heap, fs: seq<Field>, ts: seq<TField>, lo: nat)
    decreases ts
  {
    |fs| == |ts| && (ts == [] ||
      (fs[0].key == ts[0].key && Holds(h, fs[0].value, ts[0].value, lo)
       && HoldsFields(h, fs[1..], ts[1..], lo + NodeCount(ts[0].value))))
  }

  ghost predicate UnseenFrom(seen: set<nat>, lo: nat, n: nat) {
    forall id :: lo <= id < lo + n ==> id !in seen
  }

  ghost predicate SeenWithin(before: set<nat>, after: set<nat>, lo: nat, n: nat) {
    forall id :: id in after ==> id in before || lo <= id < lo + n
  }

  /** A cleared tree, held in a heap of its own, is redacted to itself. */
  lemma {:induction false} ClearedIsKept(
    sensitive: KeyTest, h: Heap, v: Value, t: Tree, lo: nat, key: Option<string>, seen: set<nat>)
    requires Closed(h) && Known(h, v) && Holds(h, v, t, lo) && Cleared(sensitive, t)
    requires key.Some? && sensitive(key.value) ==> t == TStr(REDACTED)
    requires UnseenFrom(seen, lo, NodeCount(t))
    ensures Redact(sensitive, h, v, key, seen).0 == t
    ensures SeenWithin(seen, Redact(sensitive, h, v, key, seen).1, lo, NodeCount(t))
    decreases t
  {
    if !(key.Some? && sensitive(key.value)) {
      match t
      case TStr(s) => RedactionIff(s);
      case TPrim(_) =>
      case TArr(items) => ClearedItemsAreKept(sensitive, h, h[lo].items, items, lo + 1, seen + {lo});
      case TRec(fields) => ClearedFieldsAreKept(sensitive, h, h[lo].fields, fields, lo + 1, seen + {lo});
    }
  }

  lemma {:induction false} ClearedItemsAreKept(
    sensitive: KeyTest, h: Heap, vs: seq<Value>, ts: seq<Tree>, lo: nat, seen: set<nat>)
    requires Closed(h) && AllKnown(h, vs) && HoldsItems(h, vs, ts, lo)
    requires ItemsCleared(sensitive, ts)
    requires UnseenFrom(seen, lo, ItemCount(ts))
    ensures RedactItems(sensitive, h, vs, seen).0 == ts
    ensures SeenWithin(seen, RedactItems(sensitive, h, vs, seen).1, lo, ItemCount(ts))
    decreases ts
  {
    if ts != [] {
      var between := Redact(sensitive, h, vs[0], None, seen).1;
      ShrinkingRest(h, seen, between);
      ClearedIsKept(sensitive, h, vs[0], ts[0], lo, None, seen);
      ClearedItemsAreKept(sensitive, h, vs[1..], ts[1..], lo + NodeCount(ts[0]), between);
      assert ts == [ts[0]] + ts[1..];
    }
  }

  lemma {:induction false} ClearedFieldsAreKept(
    sensitive: KeyTest, h: Heap, fs: seq<Field>, ts: seq<TField>, lo: nat, seen: set<nat>)
    requires Closed(h) && FieldsKnown(h, fs) && HoldsFields(h, fs, ts, lo)
    requires FieldsCleared(sensitive, ts)
    requires UnseenFrom(seen, lo, FieldCount(ts))
    ensures RedactFields(sensitive, h, fs, seen).0 == ts
    ensures SeenWithin(seen, RedactFields(sensitive, h, fs, seen).1, lo, FieldCount(ts))
    decreases ts
  {
    if ts != [] {
      var between := Redact(sensitive, h, fs[0].value, Some(fs[0].key), seen).1;
      ShrinkingRest(h, seen, between);
      ClearedIsKept(sensitive, h, fs[0].value, ts[0].value, lo, Some(fs[0].key), seen);
      ClearedFieldsAreKept(sensitive, h, fs[1..], ts[1..], lo + NodeCount(ts[0].value), between);
      assert ts == [ts[0]] + ts[1..] && ts[0] == TField(fs[0].key, ts[0].value);
    }
  }

  /** Whatever graph was redacted, redacting the result again changes nothing. */
  lemma RedactingAgainChangesNothing(
    sensitive: KeyTest, h: Heap, v: Value, key: Option<string>, seen: set<nat>, h': Heap, v': Value, lo: nat)
    requires Closed(h) && Known(h, v)
    requires Closed(h') && Known(h', v') && Holds(h', v', Redact(sensitive, h, v, key, seen).0, lo)
    ensures Redact(sensitive, h', v', key, {}).0 == Redact(sensitive, h, v, key, seen).0
  {
    ResultIsCleared(sensitive, h, v, key, seen);
    ClearedIsKept(sensitive, h', v', Redact(sensitive, h, v, key, seen).0, lo, key, {});
  }

  // ----- every result can be held -----

  /** A tree stored in a heap of its own, objects numbered from `lo` in the order they are met. */
  function Lay(t: Tree, lo: nat): (Value, Heap)
    decreases t
  {
    match t
    case TStr(s) => (Str(s), map[])
    case TPrim(p) => (Prim(p), map[])
    case TArr(items) =>
      var (vs, h) := LayItems(items, lo + 1);
      (Ref(lo), h[lo := Arr(vs)])
    case TRec(fields) =>
      var (fs, h) := LayFields(fields, lo + 1);
      (Ref(lo), h[lo := Rec(fs)])
  }

  function LayItems(ts: seq<Tree>, lo: nat): (seq<Value>, Heap)
    decreases ts
  {
    if ts == [] then ([], map[])
    else
      var (v, h) := Lay(ts[0], lo);
      var (vs, g) := LayItems(ts[1..], lo + NodeCount(ts[0]));
      ([v] + vs, h + g)
  }

  function LayFields(ts: seq<TField>, lo: nat): (seq<Field>, Heap)
    decreases ts
  {
    if ts == [] then ([], map[])
    else
      var (v, h) := Lay(ts[0].value, lo);
      var (fs, g) := LayFields(ts[1..], lo + NodeCount(ts[0].value));
      ([Field(ts[0].key, v)] + fs, h + g)
  }

  ghost predicate Within(h: Heap, lo: nat, n: nat) { forall id :: id in h ==> lo <= id < lo + n }

  ghost predicate Extends(h: Heap, h': Heap) { forall id :: id in h ==> id in h' && h'[id] == h[id] }

  lemma {:induction false} HoldsGrows(h: Heap, h': Heap, v: Value, t: Tree, lo: nat)
    requires Holds(h, v, t, lo) && Extends(h, h')
    ensures Holds(h', v, t, lo)
    decreases t
  {
    match t
    case TStr(_) =>
    case TPrim(_) =>
    case TArr(items) => HoldsItemsGrows(h, h', h[lo].items, items, lo + 1);
    case TRec(fields) => HoldsFieldsGrows(h, h', h[lo].fields, fields, lo + 1);
  }

  lemma {:induction false} HoldsItemsGrows(h: Heap, h': Heap, vs: seq<Value>, ts: seq<Tree>, lo: nat)
    requires HoldsItems(h, vs, ts, lo) && Extends(h, h')
    ensures HoldsItems(h', vs, ts, lo)
    decreases ts
  {
    if ts != [] {
      HoldsGrows(h, h', vs[0], ts[0], lo);
      HoldsItemsGrows(h, h', vs[1..], ts[1..], lo + NodeCount(ts[0]));
    }
  }

  lemma {:induction false} HoldsFieldsGrows(h: Heap, h': Heap, fs: seq<Field>, ts: seq<TField>, lo: nat)
    requires HoldsFields(h, fs, ts, lo) && Extends(h, h')
    ensures HoldsFields(h', fs, ts, lo)
    decreases ts
  {
    if ts != [] {
      HoldsGrows(h, h', fs[0].value, ts[0].value, lo);
      HoldsFieldsGrows(h, h', fs[1..], ts[1..], lo + NodeCount(ts[0].value));
    }
  }

  /** Two heaps side by side. */
  lemma BothHeaps(h: Heap, g: Heap, lo: nat, m: nat, n: nat)
    requires Within(h, lo, m) && Within(g, lo + m, n) && Closed(h) && Closed(g)
    ensures Extends(h, h + g) && Extends(g, h + g) && Within(h + g, lo, m + n) && Closed(h + g)
  {
  }

  /** An object on top of the heap that holds what it refers to. */
  lemma RootHeap(h: Heap, lo: nat, n: nat, root: Object)
    requires Within(h, lo + 1, n) && Closed(h)
    requires match root case Arr(vs) => AllKnown(h, vs) case Rec(fs) => FieldsKnown(h, fs)
    ensures var g := h[lo := root]; Extends(h, g) && Within(g, lo, n + 1) && Closed(g)
  {
  }

  lemma {:induction false} LayHolds(t: Tree, lo: nat)
    ensures var (v, h) := Lay(t, lo);
      Within(h, lo, NodeCount(t)) && Closed(h) && Known(h, v) && Holds(h, v, t, lo)
    decreases t
  {
    match t
    case TStr(_) =>
    case TPrim(_) =>
    case TArr(items) =>
      LayItemsHold(items, lo + 1);
      var (vs, h) := LayItems(items, lo + 1);
      RootHeap(h, lo, ItemCount(items), Arr(vs));
      HoldsItemsGrows(h, h[lo := Arr(vs)], vs, items, lo + 1);
    case TRec(fields) =>
      LayFieldsHold(fields, lo + 1);
      var (fs, h) := LayFields(fields, lo + 1);
      RootHeap(h, lo, FieldCount(fields), Rec(fs));
      HoldsFieldsGrows(h, h[lo := Rec(fs)], fs, fields, lo + 1);
  }

  lemma {:induction false} LayItemsHold(ts: seq<Tree>, lo: nat)
    ensures var (vs, h) := LayItems(ts, lo);
      Within(h, lo, ItemCount(ts)) && Closed(h) && AllKnown(h, vs) && HoldsItems(h, vs, ts, lo)
    decreases ts
  {
    if ts != [] {
      var (v, h) := Lay(ts[0], lo);
      var (vs, g) := LayItems(ts[1..], lo + NodeCount(ts[0]));
      LayHolds(ts[0], lo);
      LayItemsHold(ts[1..], lo + NodeCount(ts[0]));
      BothHeaps(h, g, lo, NodeCount(ts[0]), ItemCount(ts[1..]));
      HoldsGrows(h, h + g, v, ts[0], lo);
      HoldsItemsGrows(g, h + g, vs, ts[1..], lo + NodeCount(ts[0]));
      assert ([v] + vs)[1..] == vs;
    }
  }

  lemma {:induction false} LayFieldsHold(ts: seq<TField>, lo: nat)
    ensures var (fs, h) := LayFields(ts, lo);
      Within(h, lo, FieldCount(ts)) && Closed(h) && FieldsKnown(h, fs) && HoldsFields(h, fs, ts, lo)
    decreases ts
  {
    if ts != [] {
      var (v, h) := Lay(ts[0].value, lo);
      var (fs, g) := LayFields(ts[1..], lo + NodeCount(ts[0].value));
      LayHolds(ts[0].value, lo);
      LayFieldsHold(ts[1..], lo + NodeCount(ts[0].value));
      BothHeaps(h, g, lo, NodeCount(ts[0].value), FieldCount(ts[1..]));
      HoldsGrows(h, h + g, v, ts[0].value, lo);
      HoldsFieldsGrows(g, h + g, fs, ts[1..], lo + NodeCount(ts[0].value));
      assert ([Field(ts[0].key, v)] + fs)[1..] == fs;
    }
  }

  /** Every result can be stored and redacted again, and comes out as it went in. */
  lemma ResultIsAFixpoint(sensitive: KeyTest, h: Heap, v: Value, key: Option<string>, seen: set<nat>, lo: nat)
    requires Closed(h) && Known(h, v)
    ensures var t := Redact(sensitive, h, v, key, seen).0; var (v', h') := Lay(t, lo);
      Closed(h') && Known(h', v') && Redact(sensitive, h', v', key, {}).0 == t
  {
    var t := Redact(sensitive, h, v, key, seen).0;
    var (v', h') := Lay(t, lo);
    LayHolds(t, lo);
    RedactingAgainChangesNothing(sensitive, h, v, key, seen, h', v', lo);
  }

  // ----- what is kept -----

  /**
   * The tree shows the value: under a sensitive key the marker and nothing else, elsewhere every string with
   * its card numbers replaced, every other plain value as it is, and every object with the same elements or
   * the same keys in the same order, unless it is marked as one that has been shown before.
   */
  ghost predicate Shows(sensitive: KeyTest, h: Heap, v: Value, key: Option<string>, t: Tree)
    requires Closed(h) && Known(h, v)
    decreases t
  {
    if key.Some? && sensitive(key.value) then t == TStr("[REDACTED]")
    else match v
      case Str(s) => t == TStr(RedactPii(s))
      case Prim(p) => t == TPrim(p)
      case Ref(id) =>
        || t == TStr("[Circular]")
        || (t.TArr? && h[id].Arr? && ShowsItems(sensitive, h, h[id].items, t.items))
        || (t.TRec? && h[id].Rec? && ShowsFields(sensitive, h, h[id].fields, t.fields))
  }

  ghost predicate ShowsItems(sensitive: KeyTest, h: Heap, vs: seq<Value>, ts: seq<Tree>)
    requires Closed(h) && AllKnown(h, vs)
    decreases ts
  {
    |vs| == |ts| && (ts == [] ||
      (Shows(sensitive, h, vs[0], None, ts[0]) && ShowsItems(sensitive, h, vs[1..], ts[1..])))
  }

  ghost predicate ShowsFields(sensitive: KeyTest, h: Heap, fs: seq<Field>, ts: seq<TField>)
    requires Closed(h) && FieldsKnown(h, fs)
    decreases ts
  {
    |fs| == |ts| && (ts == [] ||
      (fs[0].key == ts[0].key && Shows(sensitive, h, fs[0].value, Some(fs[0].key), ts[0].value)
       && ShowsFields(sensitive, h, fs[1..], ts[1..])))
  }

  /**
   * On every graph the result shows the value, and every object met for the first time is expanded exactly
   * once: the result has as many objects as have newly been visited.
   */
  lemma {:induction false} ResultShows(
    sensitive: KeyTest, h: Heap, v: Value, key: Option<string>, seen: set<nat>)
    requires Closed(h) && Known(h, v)
    ensures var (t, after) := Redact(sensitive, h, v, key, seen);
      Shows(sensitive, h, v, key, t) && NodeCount(t) == |after| - |seen|
    decreases h.Keys - seen, 0
  {
    if !(key.Some? && sensitive(key.value)) && v.Ref? && v.id !in seen {
      match h[v.id]
      case Arr(items) => ItemsShow(sensitive, h, items, seen + {v.id});
      case Rec(fields) => FieldsShow(sensitive, h, fields, seen + {v.id});
    }
  }

  lemma {:induction false} ItemsShow(sensitive: KeyTest, h: Heap, items: seq<Value>, seen: set<nat>)
    requires Closed(h) && AllKnown(h, items)
    ensures var (ts, after) := RedactItems(sensitive, h, items, seen);
      ShowsItems(sensitive, h, items, ts) && ItemCount(ts) == |after| - |seen|
    decreases h.Keys - seen, |items| + 1
  {
    if items != [] {
      var (t, between) := Redact(sensitive, h, items[0], None, seen);
      ShrinkingRest(h, seen, between);
      ResultShows(sensitive, h, items[0], None, seen);
      ItemsShow(sensitive, h, items[1..], between);
      var ts := RedactItems(sensitive, h, items[1..], between).0;
      assert ([t] + ts)[1..] == ts;
    }
  }

  lemma {:induction false} FieldsShow(sensitive: KeyTest, h: Heap, fields: seq<Field>, seen: set<nat>)
    requires Closed(h) && FieldsKnown(h, fields)
    ensures var (ts, after) := RedactFields(sensitive, h, fields, seen);
      ShowsFields(sensitive, h, fields, ts) && FieldCount(ts) == |after| - |seen|
    decreases h.Keys - seen, |fields| + 1
  {
    if fields != [] {
      var (t, between) := Redact(sensitive, h, fields[0].value, Some(fields[0].key), seen);
      ShrinkingRest(h, seen, between);
      ResultShows(sensitive, h, fields[0].value, Some(fields[0].key), seen);
      FieldsShow(sensitive, h, fields[1..], between);
      var ts := RedactFields(sensitive, h, fields[1..], between).0;
      assert ([TField(fields[0].key, t)] + ts)[1..] == ts;
    }
  }

  /** An object is marked as shown before exactly if it has been visited, and a first visit adds it to the visited. */
  lemma CircularIff(sensitive: KeyTest, h: Heap, id: nat, key: Option<string>, seen: set<nat>)
    requires Closed(h) && id in h && !(key.Some? && sensitive(key.value))
    ensures var (t, after) := Redact(sensitive, h, Ref(id), key, seen);
      && id in after
      && (t == TStr("[Circular]") <==> id in seen)
      && (id in seen ==> after == seen)
  {
  }
}

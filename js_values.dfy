/** The JavaScript values a log call carries, as far as the logger inspects
    them. Plain objects are values (an ordered list of own enumerable
    properties); Error instances are shared mutable objects, so they live in a
    heap and values refer to them by index. */
module JsValues {
  import opened JsStrings

  /** Position of an Error instance in the heap. */
  type ErrorId = nat

  datatype Value =
    | Undefined
    | Null
    | Bool(b: bool)
    | Num(n: int)
    | Str(s: string)
    /** A plain object: its own enumerable properties in `for...in` order. */
    | Obj(fields: Fields)
    /** A reference to an Error instance (`value instanceof Error`). */
    | ErrorRef(id: ErrorId)

  type Fields = seq<(string, Value)>

  /** An Error instance. `ownMessage` is the non-enumerable own `message` that
      the constructor creates when given an argument; `fields` are the own
      enumerable properties assigned later, in insertion order. */
  datatype ErrorObj = ErrorObj(ownMessage: Option<Value>, fields: Fields)

  /** Every Error instance there is; allocation appends. */
  type Heap = seq<ErrorObj>

  /** `v == null` in JavaScript. */
  predicate IsNullish(v: Value) {
    v.Undefined? || v.Null?
  }

  predicate Truthy(v: Value) {
    match v
    case Undefined => false
    case Null => false
    case Bool(b) => b
    case Num(n) => n != 0
    case Str(s) => s != ""
    case _ => true
  }

  /** `a || b` */
  function Or(a: Value, b: Value): (r: Value)
    ensures Truthy(a) ==> r == a
    ensures !Truthy(a) ==> r == b
  {
    if Truthy(a) then a else b
  }

  // ---------- property lists ----------

  /** Position of the property named `k`, if there is one. */
  function KeyIndex(f: Fields, k: string): (r: Option<nat>)
    ensures r.Some? ==> r.value < |f| && f[r.value].0 == k
    ensures r.Some? ==> forall j :: 0 <= j < r.value ==> f[j].0 != k
    ensures r.None? ==> forall j :: 0 <= j < |f| ==> f[j].0 != k
  {
    if f == [] then None
    else if f[0].0 == k then Some(0)
    else match KeyIndex(f[1..], k)
      case None => None
      case Some(i) => Some(i + 1)
  }

  predicate HasKey(f: Fields, k: string) {
    KeyIndex(f, k).Some?
  }

  /** `o[k]` on a plain object. */
  function Lookup(f: Fields, k: string): Value {
    match KeyIndex(f, k)
    case Some(i) => f[i].1
    case None => Undefined
  }

  /** `o[k] = v` on a plain object: an existing property keeps its place, a new
      one goes last. */
  function Put(f: Fields, k: string, v: Value): (r: Fields)
    ensures HasKey(f, k) ==> r == f[KeyIndex(f, k).value := (k, v)]
    ensures !HasKey(f, k) ==> r == f + [(k, v)]
  {
    match KeyIndex(f, k)
    case Some(i) => f[i := (k, v)]
    case None => f + [(k, v)]
  }

  predicate DistinctKeys(f: Fields) {
    forall i, j :: 0 <= i < j < |f| ==> f[i].0 != f[j].0
  }

  /** The first position holding `k` is what KeyIndex finds. */
  lemma KeyIndexIs(f: Fields, k: string, i: nat)
    requires i < |f| && f[i].0 == k
    requires forall j :: 0 <= j < i ==> f[j].0 != k
    ensures KeyIndex(f, k) == Some(i)
  {
  }

  lemma KeyIndexNone(f: Fields, k: string)
    requires forall j :: 0 <= j < |f| ==> f[j].0 != k
    ensures KeyIndex(f, k) == None
  {
  }

  lemma {:induction false} PutLookup(f: Fields, k: string, v: Value, k': string)
    ensures Lookup(Put(f, k, v), k') == if k' == k then v else Lookup(f, k')
    ensures HasKey(Put(f, k, v), k') <==> k' == k || HasKey(f, k')
  {
    var r := Put(f, k, v);
    match KeyIndex(f, k)
    case Some(i) =>
      assert r == f[i := (k, v)];
      if k' == k {
        KeyIndexIs(r, k', i);
      } else {
        match KeyIndex(f, k')
        case Some(j) =>
          KeyIndexIs(r, k', j);
        case None =>
          KeyIndexNone(r, k');
      }
    case None =>
      assert r == f + [(k, v)];
      if k' == k {
        KeyIndexIs(r, k', |f|);
      } else {
        match KeyIndex(f, k')
        case Some(j) =>
          KeyIndexIs(r, k', j);
        case None =>
          KeyIndexNone(r, k');
      }
  }

  /** Writing the same property twice is writing it once. */
  lemma PutTwice(f: Fields, k: string, v: Value)
    ensures Put(Put(f, k, v), k, v) == Put(f, k, v)
  {
    var r := Put(f, k, v);
    match KeyIndex(f, k)
    case Some(i) =>
      KeyIndexIs(r, k, i);
    case None =>
      KeyIndexIs(r, k, |f|);
  }

  /** Every value of `Put(f, k, v)` is `v` or a value of `f`. */
  lemma PutValues(f: Fields, k: string, v: Value, i: nat)
    requires i < |Put(f, k, v)|
    ensures Put(f, k, v)[i] == (k, v) || (i < |f| && Put(f, k, v)[i] == f[i])
  {
  }

  // ---------- Error instances ----------

  /** `new Error(message)`. The constructor stores String(message); the model
      keeps `message` itself, which is the same for the strings this logger
      passes and is overwritten right after in the one place a non-string can
      reach it (the rebuild of a plain-object error). */
  function NewError(message: Value): ErrorObj {
    ErrorObj(if message.Undefined? then None else Some(message), [])
  }

  /** `e[k]` on an Error instance, for the keys this logger reads: an own
      property, else the `message` Error.prototype supplies, else undefined. */
  function ErrGet(e: ErrorObj, k: string): Value {
    if k == "message" && e.ownMessage.Some? then e.ownMessage.value
    else if HasKey(e.fields, k) then Lookup(e.fields, k)
    else if k == "message" then Str("")
    else Undefined
  }

  /** `e[k] = v` on an Error instance. */
  function ErrPut(e: ErrorObj, k: string, v: Value): ErrorObj {
    if k == "message" && e.ownMessage.Some? then e.(ownMessage := Some(v))
    else e.(fields := Put(e.fields, k, v))
  }

  lemma ErrPutGet(e: ErrorObj, k: string, v: Value, k': string)
    ensures ErrGet(ErrPut(e, k, v), k') == if k' == k then v else ErrGet(e, k')
  {
    PutLookup(e.fields, k, v, k');
  }

  /** `e.reportedToSentry` is truthy. */
  predicate Reported(e: ErrorObj) {
    Truthy(ErrGet(e, "reportedToSentry"))
  }

  /** `e.reportedToSentry = true` */
  function Flag(e: ErrorObj): ErrorObj {
    ErrPut(e, "reportedToSentry", Bool(true))
  }

  lemma FlagSetsOnlyTheMarker(e: ErrorObj, k: string)
    ensures Reported(Flag(e))
    ensures k != "reportedToSentry" ==> ErrGet(Flag(e), k) == ErrGet(e, k)
    ensures Flag(Flag(e)) == Flag(e)
  {
    ErrPutGet(e, "reportedToSentry", Bool(true), "reportedToSentry");
    ErrPutGet(e, "reportedToSentry", Bool(true), k);
    PutTwice(e.fields, "reportedToSentry", Bool(true));
  }

  // ---------- well-formed values ----------

  /** Every reference points into a heap of `size` objects, and every plain
      object has distinct property names. */
  predicate ValidValue(v: Value, size: nat) {
    match v
    case ErrorRef(id) => id < size
    case Obj(f) => DistinctKeys(f) && forall i :: 0 <= i < |f| ==> ValidValue(f[i].1, size)
    case _ => true
  }

  predicate ValidFields(f: Fields, size: nat) {
    DistinctKeys(f) && forall i :: 0 <= i < |f| ==> ValidValue(f[i].1, size)
  }

  predicate ValidError(e: ErrorObj, size: nat) {
    ValidFields(e.fields, size) && (e.ownMessage.Some? ==> ValidValue(e.ownMessage.value, size))
  }

  predicate HeapValid(heap: Heap) {
    forall id :: 0 <= id < |heap| ==> ValidError(heap[id], |heap|)
  }

  lemma {:induction false} ValidValueGrows(v: Value, size: nat, size': nat)
    requires ValidValue(v, size) && size <= size'
    ensures ValidValue(v, size')
    decreases v
  {
    match v
    case Obj(f) =>
      forall i | 0 <= i < |f| ensures ValidValue(f[i].1, size') {
        ValidValueGrows(f[i].1, size, size');
      }
    case _ =>
  }

  lemma ValidErrorGrows(e: ErrorObj, size: nat, size': nat)
    requires ValidError(e, size) && size <= size'
    ensures ValidError(e, size')
  {
    forall i | 0 <= i < |e.fields| ensures ValidValue(e.fields[i].1, size') {
      ValidValueGrows(e.fields[i].1, size, size');
    }
    if e.ownMessage.Some? {
      ValidValueGrows(e.ownMessage.value, size, size');
    }
  }

  lemma PutValid(f: Fields, k: string, v: Value, size: nat)
    requires ValidFields(f, size) && ValidValue(v, size)
    ensures ValidFields(Put(f, k, v), size)
  {
    var r := Put(f, k, v);
    forall i, j | 0 <= i < j < |r| ensures r[i].0 != r[j].0 {
      if !HasKey(f, k) {
        assert r == f + [(k, v)];
      }
    }
    forall i | 0 <= i < |r| ensures ValidValue(r[i].1, size) {
      PutValues(f, k, v, i);
    }
  }

  lemma ErrPutValid(e: ErrorObj, k: string, v: Value, size: nat)
    requires ValidError(e, size) && ValidValue(v, size)
    ensures ValidError(ErrPut(e, k, v), size)
  {
    if !(k == "message" && e.ownMessage.Some?) {
      PutValid(e.fields, k, v, size);
    }
  }

  /** Allocating a well-formed Error keeps the heap well-formed. */
  lemma AllocateValid(heap: Heap, e: ErrorObj)
    requires HeapValid(heap) && ValidError(e, |heap| + 1)
    ensures HeapValid(heap + [e])
  {
    forall id | 0 <= id < |heap| + 1 ensures ValidError((heap + [e])[id], |heap| + 1) {
      if id < |heap| {
        ValidErrorGrows(heap[id], |heap|, |heap| + 1);
      }
    }
  }

  /** Assigning a well-formed property to a heap object keeps the heap well-formed. */
  lemma UpdateValid(heap: Heap, id: ErrorId, k: string, v: Value)
    requires HeapValid(heap) && id < |heap| && ValidValue(v, |heap|)
    ensures HeapValid(heap[id := ErrPut(heap[id], k, v)])
  {
    ErrPutValid(heap[id], k, v, |heap|);
  }

  // ---------- property access on any value ----------

  /** `v[k]` for a value that is not null or undefined (on those JavaScript
      throws a TypeError); strings, numbers and booleans have none of the
      properties this logger reads. */
  function Prop(v: Value, k: string, heap: Heap): (r: Value)
    requires !IsNullish(v)
    requires v.ErrorRef? ==> v.id < |heap|
  {
    match v
    case Obj(f) => Lookup(f, k)
    case ErrorRef(id) => ErrGet(heap[id], k)
    case _ => Undefined
  }

  /** The `(key, value)` pairs `for (key in v)` visits, for a value that is not
      a string: the own enumerable properties; none for primitives, null and
      undefined. */
  function Entries(v: Value, heap: Heap): (r: Fields)
    requires !v.Str?
    requires v.ErrorRef? ==> v.id < |heap|
  {
    match v
    case Obj(f) => f
    case ErrorRef(id) => heap[id].fields
    case _ => []
  }

  lemma EntriesValid(v: Value, heap: Heap)
    requires HeapValid(heap) && ValidValue(v, |heap|) && !v.Str?
    ensures ValidFields(Entries(v, heap), |heap|)
  {
  }

  lemma PropValid(v: Value, k: string, heap: Heap)
    requires HeapValid(heap) && ValidValue(v, |heap|) && !IsNullish(v)
    ensures ValidValue(Prop(v, k, heap), |heap|)
  {
    match v
    case Obj(f) =>
      if HasKey(f, k) {
        assert f[KeyIndex(f, k).value].1 == Lookup(f, k);
      }
    case ErrorRef(id) =>
      var e := heap[id];
      assert ValidError(e, |heap|);
      if HasKey(e.fields, k) {
        assert e.fields[KeyIndex(e.fields, k).value].1 == Lookup(e.fields, k);
      }
    case _ =>
  }

  /** Text of a truthy `path` inside a template literal. An Error instance as
      path is not given a text (None). */
  function PathText(v: Value): Option<string> {
    match v
    case Str(s) => Some(s)
    case Num(n) => Some(IntToDecimal(n))
    case Bool(b) => Some(if b then "true" else "false")
    case Obj(_) => Some("[object Object]")
    case Null => Some("null")
    case Undefined => Some("undefined")
    case ErrorRef(_) => None
  }
}

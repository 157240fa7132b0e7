/** Input and output modification of block content, driven by protobuf options. */
module Processor {
  import opened Data
  import opened ProcessorValues
  import opened Wrappers

  // ---- Message descriptors -------------------------------------------------------------

  datatype Schema = Schema(fields: map<string, Field>)

  datatype Field = Field(number: nat, repeated: bool, kind: Kind, options: Options)

  /** Plain values, submessages, and the entries of maps to messages. */
  datatype Kind = Scalar(isInt: bool) | Message(schema: Schema) | MapTo(schema: Schema)

  // ---- Keys with postfixes --------------------------------------------------------------

  datatype Key = Key(base: string, postfix: string)

  predicate IsSymbol(c: char) {
    c == '[' || c == ']' || c == '<' || c == '>'
  }

  /** The longest prefix without symbols. */
  function UntilSymbol(s: string): (r: string)
    ensures r <= s
    ensures forall i :: 0 <= i < |r| ==> !IsSymbol(r[i])
  {
    if s == "" || IsSymbol(s[0]) then "" else [s[0]] + UntilSymbol(s[1..])
  }

  /** The longest prefix without commas. */
  function UntilComma(s: string): (r: string)
    ensures r <= s
  {
    if s == "" || s[0] == ',' then "" else [s[0]] + UntilComma(s[1..])
  }

  function BehindSymbols(s: string): string {
    if s == "" || !IsSymbol(s[0]) then s else BehindSymbols(s[1..])
  }

  /** The first match of the postfix pattern: `value[degC]` or `sensor<TempSensor>`. */
  function ParseKey(key: string): Option<Key> {
    var s := BehindSymbols(key);
    var base := UntilSymbol(s);
    if base == "" then None
    else
      var after := if |base| < |s| then UntilSymbol(s[|base| + 1..]) else "";
      Some(Key(base, UntilComma(after)))
  }

  // ---- Masks -------------------------------------------------------------------------------

  datatype MaskMode = NoMask | Inclusive | Exclusive

  /** Field numbers from the root; `None` is never part of a mask. */
  type Address = seq<Option<nat>>

  /** `matches_address` */
  predicate MatchesAddress(mask: seq<nat>, match_: Address) {
    forall i :: 0 <= i < |mask| && i < |match_| ==> match_[i] == Some(mask[i])
  }

  predicate IsMaskable(address: Address) {
    forall i :: 0 <= i < |address| ==> address[i].Some?
  }

  function Tags(address: Address): (r: seq<nat>)
    requires IsMaskable(address)
    ensures |r| == |address| && forall i :: 0 <= i < |r| ==> address[i] == Some(r[i])
  {
    seq(|address|, i requires 0 <= i < |address| => address[i].value)
  }

  // ---- The two directions --------------------------------------------------------------------

  datatype ReadMode = DefaultRead | Stored | Logged

  datatype Pass =
    | Encoding(units: Units, filter: bool, maskMode: MaskMode)
    | Decoding(units: Units, filter: bool, maskMode: MaskMode, mode: ReadMode, mask: seq<seq<nat>>)

  /** What happens to an element: its key is deleted, or a value is assigned to its old or new key. */
  datatype Edit = Delete | Assign(key: string, value: Value)

  predicate IsFiltered(pass: Pass, o: Options) {
    o.ignored ||
    (pass.filter &&
     if pass.Encoding? then o.readonly
     else (pass.mode == Stored && !o.stored) || (pass.mode == Logged && !o.logged))
  }

  predicate IsExcluded(pass: Pass, address: Address)
    requires pass.Decoding?
  {
    pass.maskMode != NoMask &&
    (exists k :: 0 <= k < |pass.mask| && MatchesAddress(pass.mask[k], address)) == (pass.maskMode == Exclusive)
  }

  function MetadataOf(mode: ReadMode): Metadata {
    if mode == Logged then Postfix else Typed
  }

  function EncodeItems(units: Units, f: Field, postfix: string, items: seq<Value>): Result<seq<Value>, Error> {
    if items == [] then Ok([])
    else if items[0].Null? then EncodeItems(units, f, postfix, items[1..])
    else
      var first :- EncodeValue(units, f.options, f.kind == Scalar(true), postfix, items[0]);
      var later :- EncodeItems(units, f, postfix, items[1..]);
      Ok([first] + later)
  }

  function EncodeEdit(units: Units, f: Field, key: Key, v: Value): Result<Edit, Error> {
    match v
    case Null => Ok(Delete)
    case List(items) =>
      var converted :- EncodeItems(units, f, key.postfix, items);
      Ok(Assign(key.base, List(converted)))
    case _ =>
      var converted :- EncodeValue(units, f.options, f.kind == Scalar(true), key.postfix, v);
      Ok(Assign(key.base, converted))
  }

  function DecodeItems(units: Units, o: Options, metadata: Metadata, excluded: bool, items: seq<Value>):
    Result<seq<Value>, Error>
  {
    if items == [] then Ok([])
    else if o.omitIfZero && IsZero(items[0]) then DecodeItems(units, o, metadata, excluded, items[1..])
    else
      var first :- DecodeValue(units, o, metadata, excluded, items[0]);
      var later :- DecodeItems(units, o, metadata, excluded, items[1..]);
      Ok([first] + later)
  }

  function DecodedKey(units: Units, o: Options, metadata: Metadata, key: string): string {
    if metadata == Typed then key
    else if o.unit.Some? then key + "[" + UserUnit(units, o.unit.value) + "]"
    else if o.objtype.Some? then key + "<" + o.objtype.value + ">"
    else key
  }

  function DecodeEdit(units: Units, o: Options, metadata: Metadata, excluded: bool, key: string, v: Value):
    Result<Edit, Error>
  {
    var newKey := DecodedKey(units, o, metadata, key);
    if v.List? then
      var converted :- DecodeItems(units, o, metadata, excluded, v.items);
      Ok(Assign(newKey, List(converted)))
    else if o.omitIfZero && IsZero(v) then Ok(Delete)
    else
      var converted :- DecodeValue(units, o, metadata, excluded, v);
      Ok(Assign(newKey, converted))
  }

  function EditOf(pass: Pass, f: Field, key: string, parsed: Key, address: Address, v: Value): Result<Edit, Error> {
    if IsFiltered(pass, f.options) then Ok(Delete)
    else if pass.Encoding? then EncodeEdit(pass.units, f, parsed, v)
    else DecodeEdit(pass.units, f.options, MetadataOf(pass.mode), IsExcluded(pass, address), key, v)
  }

  /** The mask fields that an element adds. */
  function MaskOf(pass: Pass, f: Field, address: Address): seq<seq<nat>> {
    if pass.Encoding? && !IsFiltered(pass, f.options) && pass.maskMode == Inclusive && IsMaskable(address)
    then [Tags(address)]
    else []
  }

  // ---- Walking the data --------------------------------------------------------------------------

  /** An object that is being edited, the keys that were newly written, and the mask fields so far. */
  datatype State = State(obj: seq<Entry>, written: set<string>, mask: seq<seq<nat>>)

  datatype Walked = Walked(value: Value, mask: seq<seq<nat>>)

  datatype Element = Element(key: Key, field: Field)

  function FindElement(schema: Schema, key: string): Result<Element, Error> {
    var parsed := ParseKey(key);
    if parsed.None? then Err(BadKey(key))
    else if parsed.value.base !in schema.fields then Err(UnknownField(parsed.value.base))
    else Ok(Element(parsed.value, schema.fields[parsed.value.base]))
  }

  /** Submessages are no leaves, unless they are deleted. */
  function ElementAddress(f: Field, v: Value, parent: Address): Address {
    var address := parent + [Some(f.number)];
    if f.kind.Scalar? || v.Null? || f.repeated then address else address + [None]
  }

  function Applied(obj: seq<Entry>, key: string, edit: Edit): seq<Entry> {
    match edit
    case Delete => Removed(obj, key)
    case Assign(newKey, v) => Assigned(if newKey == key then obj else Removed(obj, key), newKey, v)
  }

  /** One iteration: the nested data of an element was edited, and now the element is. */
  function Step(pass: Pass, e: Entry, element: Element, parent: Address, s: State, nested: Walked):
    Result<State, Error>
  {
    var obj := if e.key in s.written then s.obj else Assigned(s.obj, e.key, nested.value);
    var address := ElementAddress(element.field, e.value, parent);
    if Get(obj, e.key).None? then Err(MissingEntry(e.key))
    else
      var edit :- EditOf(pass, element.field, e.key, element.key, address, Get(obj, e.key).value);
      var written := if edit.Assign? && edit.key != e.key then s.written + {edit.key} else s.written;
      Ok(State(Applied(obj, e.key, edit), written, s.mask + nested.mask + MaskOf(pass, element.field, address)))
  }

  /** The object `v` after its first `n` elements. */
  function WalkDict(pass: Pass, schema: Schema, v: Value, n: nat, parent: Address): Result<State, Error>
    requires v.Dict? && n <= |v.entries|
    decreases v, 1, n
  {
    if n == 0 then Ok(State(v.entries, {}, []))
    else
      var s :- WalkDict(pass, schema, v, n - 1, parent);
      var e := v.entries[n - 1];
      var element :- FindElement(schema, e.key);
      assert ChildAt(v, n - 1) == e.value;
      var nested :- WalkField(pass, element.field, e.value, parent + [Some(element.field.number)]);
      Step(pass, e, element, parent, s, nested)
  }

  function WalkMessage(pass: Pass, schema: Schema, v: Value, address: Address): Result<Walked, Error>
    decreases v, 2, 0
  {
    if !v.Dict? then Err(BadValue(v))
    else
      var s :- WalkDict(pass, schema, v, |v.entries|, address);
      Ok(Walked(Dict(s.obj), s.mask))
  }

  /** The first `n` messages in a list or map. */
  function WalkMessages(pass: Pass, schema: Schema, v: Value, n: nat, address: Address): (r: Result<Walked, Error>)
    requires n <= ChildCount(v)
    ensures r.Ok? ==> ChildCount(r.value.value) == ChildCount(v)
    decreases v, 1, n
  {
    if n == 0 then Ok(Walked(v, []))
    else
      var s :- WalkMessages(pass, schema, v, n - 1, address);
      var child :- WalkMessage(pass, schema, ChildAt(v, n - 1), address);
      Ok(Walked(SetChild(s.value, n - 1, child.value), s.mask + child.mask))
  }

  /** The data nested in a field; the index in a repeated field is no tag. */
  function WalkField(pass: Pass, f: Field, v: Value, address: Address): Result<Walked, Error>
    decreases v, 3, 0
  {
    if f.kind.Scalar? || v.Null? then Ok(Walked(v, []))
    else if !f.repeated then WalkMessage(pass, f.kind.schema, v, address)
    else if !IsContainer(v) then Err(BadValue(v))
    else if v.Dict? != f.kind.MapTo? && ChildCount(v) > 0 then Err(UnknownField("value"))
    else WalkMessages(pass, f.kind.schema, v, ChildCount(v), address + [None])
  }

  // ---- Walks that fail -------------------------------------------------------------------------

  /** What was edited, and the error that ended the walk, if there was one. */
  datatype Attempt = Attempt(value: Value, mask: seq<seq<nat>>, error: Option<Error>)

  datatype DictAttempt = DictAttempt(state: State, error: Option<Error>)

  /** When the edit fails, nested data was edited already, and the mask field was added. */
  function TryStep(pass: Pass, e: Entry, element: Element, parent: Address, s: State, nested: Attempt): DictAttempt {
    var obj := if e.key in s.written then s.obj else Assigned(s.obj, e.key, nested.value);
    if nested.error.Some? then DictAttempt(State(obj, s.written, s.mask + nested.mask), nested.error)
    else
      var next := Step(pass, e, element, parent, s, Walked(nested.value, nested.mask));
      if next.Ok? then DictAttempt(next.value, None)
      else
        var own := MaskOf(pass, element.field, ElementAddress(element.field, e.value, parent));
        DictAttempt(State(obj, s.written, s.mask + nested.mask + own), Some(next.error))
  }

  /** The object `v` after its first `n` elements, or after the first error. */
  function TryDict(pass: Pass, schema: Schema, v: Value, n: nat, parent: Address): DictAttempt
    requires v.Dict? && n <= |v.entries|
    decreases v, 1, n
  {
    if n == 0 then DictAttempt(State(v.entries, {}, []), None)
    else
      var t := TryDict(pass, schema, v, n - 1, parent);
      var e := v.entries[n - 1];
      var element := FindElement(schema, e.key);
      if t.error.Some? then t
      else if element.Err? then DictAttempt(t.state, Some(element.error))
      else
        assert ChildAt(v, n - 1) == e.value;
        var f := element.value.field;
        TryStep(pass, e, element.value, parent, t.state, TryField(pass, f, e.value, parent + [Some(f.number)]))
  }

  function TryMessage(pass: Pass, schema: Schema, v: Value, address: Address): Attempt
    decreases v, 2, 0
  {
    if !v.Dict? then Attempt(v, [], Some(BadValue(v)))
    else
      var t := TryDict(pass, schema, v, |v.entries|, address);
      Attempt(Dict(t.state.obj), t.state.mask, t.error)
  }

  function TryMessages(pass: Pass, schema: Schema, v: Value, n: nat, address: Address): (r: Attempt)
    requires n <= ChildCount(v)
    ensures ChildCount(r.value) == ChildCount(v)
    decreases v, 1, n
  {
    if n == 0 then Attempt(v, [], None)
    else
      var t := TryMessages(pass, schema, v, n - 1, address);
      if t.error.Some? then t
      else
        var child := TryMessage(pass, schema, ChildAt(v, n - 1), address);
        Attempt(SetChild(t.value, n - 1, child.value), t.mask + child.mask, child.error)
  }

  function TryField(pass: Pass, f: Field, v: Value, address: Address): Attempt
    decreases v, 3, 0
  {
    if f.kind.Scalar? || v.Null? then Attempt(v, [], None)
    else if !f.repeated then TryMessage(pass, f.kind.schema, v, address)
    else if !IsContainer(v) then Attempt(v, [], Some(BadValue(v)))
    else if v.Dict? != f.kind.MapTo? && ChildCount(v) > 0 then Attempt(v, [], Some(UnknownField("value")))
    else TryMessages(pass, f.kind.schema, v, ChildCount(v), address + [None])
  }

  /** A walk that succeeds has edited everything, and one that fails ends with the error of the walk. */
  ghost predicate Agrees(t: Attempt, r: Result<Walked, Error>) {
    match r
    case Ok(w) => t == Attempt(w.value, w.mask, None)
    case Err(e) => t.error == Some(e)
  }

  ghost predicate DictAgrees(t: DictAttempt, r: Result<State, Error>) {
    match r
    case Ok(s) => t == DictAttempt(s, None)
    case Err(e) => t.error == Some(e)
  }

  lemma StepAgrees(pass: Pass, e: Entry, element: Element, parent: Address, s: State, nested: Walked)
    ensures DictAgrees(TryStep(pass, e, element, parent, s, Attempt(nested.value, nested.mask, None)),
                       Step(pass, e, element, parent, s, nested))
  {
    hide EditOf, MaskOf, Applied, ElementAddress;
  }

  lemma StepFails(pass: Pass, e: Entry, element: Element, parent: Address, s: State, nested: Attempt)
    requires nested.error.Some?
    ensures TryStep(pass, e, element, parent, s, nested).error == nested.error
  {
  }

  lemma {:induction false} DictTriedExactly(pass: Pass, schema: Schema, v: Value, n: nat, parent: Address)
    requires v.Dict? && n <= |v.entries|
    ensures DictAgrees(TryDict(pass, schema, v, n, parent), WalkDict(pass, schema, v, n, parent))
    decreases v, 1, n
  {
    hide Step, TryStep, FindElement, TryField, WalkField;
    if n > 0 {
      DictTriedExactly(pass, schema, v, n - 1, parent);
      var e := v.entries[n - 1];
      assert ChildAt(v, n - 1) == e.value;
      var element := FindElement(schema, e.key);
      var t := TryDict(pass, schema, v, n - 1, parent);
      if t.error.None? && element.Ok? {
        var f := element.value.field;
        var address := parent + [Some(f.number)];
        FieldTriedExactly(pass, f, e.value, address);
        if WalkField(pass, f, e.value, address).Ok? {
          StepAgrees(pass, e, element.value, parent, t.state, WalkField(pass, f, e.value, address).value);
        } else {
          StepFails(pass, e, element.value, parent, t.state, TryField(pass, f, e.value, address));
        }
      }
    }
  }

  lemma MessageTriedExactly(pass: Pass, schema: Schema, v: Value, address: Address)
    ensures Agrees(TryMessage(pass, schema, v, address), WalkMessage(pass, schema, v, address))
    decreases v, 2, 0
  {
    hide TryDict, WalkDict;
    if v.Dict? {
      DictTriedExactly(pass, schema, v, |v.entries|, address);
    }
  }

  lemma {:induction false} MessagesTriedExactly(pass: Pass, schema: Schema, v: Value, n: nat, address: Address)
    requires n <= ChildCount(v)
    ensures Agrees(TryMessages(pass, schema, v, n, address), WalkMessages(pass, schema, v, n, address))
    decreases v, 1, n
  {
    hide TryMessage, WalkMessage;
    if n > 0 {
      MessagesTriedExactly(pass, schema, v, n - 1, address);
      MessageTriedExactly(pass, schema, ChildAt(v, n - 1), address);
    }
  }

  lemma FieldTriedExactly(pass: Pass, f: Field, v: Value, address: Address)
    ensures Agrees(TryField(pass, f, v, address), WalkField(pass, f, v, address))
    decreases v, 3, 0
  {
    hide TryMessage, WalkMessage, TryMessages, WalkMessages;
    if !f.kind.Scalar? && !v.Null? {
      if !f.repeated {
        MessageTriedExactly(pass, f.kind.schema, v, address);
      } else {
        MessagesTriedExactly(pass, f.kind.schema, v, ChildCount(v), address + [None]);
      }
    }
  }

  /** What the failing element `e` leaves of the object: its nested data, as far as that was edited. */
  ghost predicate IsLeftAt(e: Entry, s: State, nested: Attempt, left: State) {
    left.written == s.written &&
    forall key :: Get(left.obj, key) ==
                  if key == e.key && e.key !in s.written then Some(nested.value) else Get(s.obj, key)
  }

  /** The mask field of an element is added before its value is converted. */
  predicate IsMaskLeft(pass: Pass, element: Element, address: Address, s: State, nested: Attempt, left: State) {
    var before := s.mask + nested.mask;
    if nested.error.None? && pass.Encoding? && pass.maskMode == Inclusive && IsMaskable(address)
       && !element.field.options.ignored && !(pass.filter && element.field.options.readonly)
    then left.mask == before + [Tags(address)]
    else left.mask == before
  }

  lemma StepLeaves(pass: Pass, e: Entry, element: Element, parent: Address, s: State, nested: Attempt)
    requires TryStep(pass, e, element, parent, s, nested).error.Some?
    ensures var left := TryStep(pass, e, element, parent, s, nested).state;
            && IsLeftAt(e, s, nested, left)
            && IsMaskLeft(pass, element, ElementAddress(element.field, e.value, parent), s, nested, left)
  {
    hide Get, Assigned, Step, ElementAddress, Tags, IsMaskable;
    forall key ensures Get(Assigned(s.obj, e.key, nested.value), key) ==
                       if key == e.key then Some(nested.value) else Get(s.obj, key)
    {
      GetAssigned(s.obj, e.key, nested.value, key);
    }
  }

  /** The walk fails at element `k`: those before it are edited, and of its own data what was nested in it. */
  ghost predicate FailsAt(pass: Pass, schema: Schema, v: Value, k: nat, parent: Address, left: State)
    requires v.Dict? && k < |v.entries|
  {
    var before, e := WalkDict(pass, schema, v, k, parent), v.entries[k];
    before.Ok? &&
    match FindElement(schema, e.key)
    case Err(_) => left == before.value
    case Ok(element) =>
      var nested := TryField(pass, element.field, e.value, parent + [Some(element.field.number)]);
      && IsLeftAt(e, before.value, nested, left)
      && IsMaskLeft(pass, element, ElementAddress(element.field, e.value, parent), before.value, nested, left)
  }

  /** What a failed walk leaves of an object. */
  lemma {:induction false} FailureLeaves(pass: Pass, schema: Schema, v: Value, n: nat, parent: Address)
    returns (k: nat)
    requires v.Dict? && n <= |v.entries| && TryDict(pass, schema, v, n, parent).error.Some?
    ensures k < n && FailsAt(pass, schema, v, k, parent, TryDict(pass, schema, v, n, parent).state)
  {
    hide TryStep, FindElement, TryField, WalkDict, IsLeftAt, IsMaskLeft, ElementAddress;
    var t := TryDict(pass, schema, v, n - 1, parent);
    if t.error.Some? {
      k := FailureLeaves(pass, schema, v, n - 1, parent);
    } else {
      k := n - 1;
      DictTriedExactly(pass, schema, v, k, parent);
      var e := v.entries[k];
      var element := FindElement(schema, e.key);
      assert ChildAt(v, k) == e.value;
      if element.Ok? {
        var f := element.value.field;
        StepLeaves(pass, e, element.value, parent, t.state, TryField(pass, f, e.value, parent + [Some(f.number)]));
      }
    }
  }

  // ---- The walk as a program ---------------------------------------------------------------------

  method EditDict(pass: Pass, schema: Schema, v: Value, parent: Address) returns (t: DictAttempt)
    requires v.Dict?
    ensures t == TryDict(pass, schema, v, |v.entries|, parent)
    decreases v, 1
  {
    hide TryStep, FindElement, TryField;
    t := DictAttempt(State(v.entries, {}, []), None);
    for i := 0 to |v.entries|
      invariant t.error.None? && TryDict(pass, schema, v, i, parent) == t
    {
      var e := v.entries[i];
      assert ChildAt(v, i) == e.value;
      var element := FindElement(schema, e.key);
      if element.Err? {
        t := t.(error := Some(element.error));
      } else {
        var nested := EditField(pass, element.value.field, e.value, parent + [Some(element.value.field.number)]);
        t := TryStep(pass, e, element.value, parent, t.state, nested);
      }
      if t.error.Some? {
        DictStops(pass, schema, v, i + 1, |v.entries|, parent);
        return;
      }
    }
  }

  method EditField(pass: Pass, f: Field, v: Value, address: Address) returns (t: Attempt)
    ensures t == TryField(pass, f, v, address)
    decreases v, 3
  {
    hide TryDict, TryMessages;
    if f.kind.Scalar? || v.Null? {
      return Attempt(v, [], None);
    }
    if !f.repeated {
      t := EditMessage(pass, f.kind.schema, v, address);
      return;
    }
    if !IsContainer(v) {
      return Attempt(v, [], Some(BadValue(v)));
    }
    if v.Dict? != f.kind.MapTo? && ChildCount(v) > 0 {
      return Attempt(v, [], Some(UnknownField("value")));
    }
    t := EditMessages(pass, f.kind.schema, v, address + [None]);
  }

  method EditMessage(pass: Pass, schema: Schema, v: Value, address: Address) returns (t: Attempt)
    ensures t == TryMessage(pass, schema, v, address)
    decreases v, 2
  {
    hide TryDict;
    if !v.Dict? {
      return Attempt(v, [], Some(BadValue(v)));
    }
    var d := EditDict(pass, schema, v, address);
    t := Attempt(Dict(d.state.obj), d.state.mask, d.error);
  }

  method EditMessages(pass: Pass, schema: Schema, v: Value, address: Address) returns (t: Attempt)
    ensures t == TryMessages(pass, schema, v, ChildCount(v), address)
    decreases v, 1
  {
    hide TryMessage;
    t := Attempt(v, [], None);
    for i := 0 to ChildCount(v)
      invariant t.error.None? && TryMessages(pass, schema, v, i, address) == t
    {
      var child := EditMessage(pass, schema, ChildAt(v, i), address);
      t := Attempt(SetChild(t.value, i, child.value), t.mask + child.mask, child.error);
      if t.error.Some? {
        MessagesStop(pass, schema, v, i + 1, ChildCount(v), address);
        return;
      }
    }
  }

  // ---- The first failure ends the walk ---------------------------------------------------------

  lemma {:induction false} DictStops(pass: Pass, schema: Schema, v: Value, i: nat, n: nat, parent: Address)
    requires v.Dict? && i <= n <= |v.entries| && TryDict(pass, schema, v, i, parent).error.Some?
    ensures TryDict(pass, schema, v, n, parent) == TryDict(pass, schema, v, i, parent)
    decreases n
  {
    hide TryStep, FindElement, TryField;
    if i < n {
      DictStops(pass, schema, v, i, n - 1, parent);
    }
  }

  lemma {:induction false} MessagesStop(pass: Pass, schema: Schema, v: Value, i: nat, n: nat, address: Address)
    requires i <= n <= ChildCount(v) && TryMessages(pass, schema, v, i, address).error.Some?
    ensures TryMessages(pass, schema, v, n, address) == TryMessages(pass, schema, v, i, address)
    decreases n
  {
    hide TryMessage;
    if i < n {
      MessagesStop(pass, schema, v, i, n - 1, address);
    }
  }

  // ---- Payloads ------------------------------------------------------------------------------------

  class Payload {
    var content: seq<Entry>
    const maskMode: MaskMode
    var maskFields: seq<seq<nat>>

    constructor (content: seq<Entry>, maskMode: MaskMode, maskFields: seq<seq<nat>>)
      ensures this.content == content && this.maskMode == maskMode && this.maskFields == maskFields
    {
      this.content, this.maskMode, this.maskFields := content, maskMode, maskFields;
    }
  }

  function Encoded(units: Units, filter: bool, maskMode: MaskMode, schema: Schema, content: seq<Entry>):
    Result<State, Error>
  {
    WalkDict(Encoding(units, filter, maskMode), schema, Dict(content), |content|, [])
  }

  function Decoded(units: Units, filter: bool, maskMode: MaskMode, mode: ReadMode, mask: seq<seq<nat>>,
                   schema: Schema, content: seq<Entry>): Result<State, Error>
  {
    WalkDict(Decoding(units, filter, maskMode, mode, mask), schema, Dict(content), |content|, [])
  }

  class ProtobufProcessor {
    const units: Units
    const filterValues: bool

    constructor (units: Units, filterValues: bool)
      ensures this.units == units && this.filterValues == filterValues
    {
      this.units, this.filterValues := units, filterValues;
    }

    function Filter(filterValues: Option<bool>): bool {
      if filterValues.Some? then filterValues.value else this.filterValues
    }

    method PreEncode(schema: Schema, payload: Payload, filterValues: Option<bool>) returns (r: Result<Payload, Error>)
      modifies payload
      ensures var pass := Encoding(units, Filter(filterValues), payload.maskMode);
              var t := TryDict(pass, schema, Dict(old(payload.content)), |old(payload.content)|, []);
              && payload.content == t.state.obj && payload.maskFields == old(payload.maskFields) + t.state.mask
              && r == if t.error.Some? then Err(t.error.value) else Ok(payload)
      ensures var s := Encoded(units, Filter(filterValues), payload.maskMode, schema, old(payload.content));
              if s.Err? then r == Err(s.error)
              else
                && r == Ok(payload) && payload.content == s.value.obj
                && payload.maskFields == old(payload.maskFields) + s.value.mask
    {
      hide TryDict, WalkDict;
      var pass := Encoding(units, Filter(filterValues), payload.maskMode);
      DictTriedExactly(pass, schema, Dict(payload.content), |payload.content|, []);
      var t := EditDict(pass, schema, Dict(payload.content), []);
      payload.content := t.state.obj;
      payload.maskFields := payload.maskFields + t.state.mask;
      r := if t.error.Some? then Err(t.error.value) else Ok(payload);
    }

    method PostDecode(schema: Schema, payload: Payload, mode: ReadMode, filterValues: Option<bool>)
      returns (r: Result<Payload, Error>)
      modifies payload
      ensures var pass := Decoding(units, Filter(filterValues), payload.maskMode, mode, old(payload.maskFields));
              var t := TryDict(pass, schema, Dict(old(payload.content)), |old(payload.content)|, []);
              && payload.content == t.state.obj && payload.maskFields == old(payload.maskFields)
              && r == if t.error.Some? then Err(t.error.value) else Ok(payload)
      ensures var s := Decoded(units, Filter(filterValues), payload.maskMode, mode, old(payload.maskFields), schema,
                               old(payload.content));
              if s.Err? then r == Err(s.error) else r == Ok(payload) && payload.content == s.value.obj
    {
      hide TryDict, WalkDict;
      var pass := Decoding(units, Filter(filterValues), payload.maskMode, mode, payload.maskFields);
      DictTriedExactly(pass, schema, Dict(payload.content), |payload.content|, []);
      var t := EditDict(pass, schema, Dict(payload.content), []);
      payload.content := t.state.obj;
      r := if t.error.Some? then Err(t.error.value) else Ok(payload);
    }
  }
}

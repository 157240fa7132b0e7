/** Rewriting the links in block data between names and numeric IDs. */
module Links {
  import opened Text
  import opened Wrappers
  import opened Data
  import opened BlockStore

  const LINK_POSTFIX := '>'

  datatype Error =
    | UnknownId(name: string)
    | ExpectedNumber(text: string)
    | MissingId
    | UnsupportedId

  // ---- Single IDs ---------------------------------------------------------------------

  predicate IsNumeric(s: string) {
    s != "" && AllDigits(s)
  }

  function PrintInt(i: int): string {
    if i < 0 then "-" + PrintNat(-i) else PrintNat(i)
  }

  function NameValue(name: Name): Value {
    if name.None? then Null else Str(name.value)
  }

  /** `_find_nid` */
  function FindNid(m: map<Name, nat>, sid: Value): Result<Value, Error> {
    match sid
    case Null => Ok(Int(0))
    case Int(_) => Ok(sid)
    case Str(s) =>
      if IsNumeric(s) then Ok(Int(ParseNat(s)))
      else if Some(s) in m then Ok(Int(m[Some(s)]))
      else Err(UnknownId(s))
    case _ => Err(UnsupportedId)
  }

  /** `_find_sid` */
  ghost function FindSid(m: map<Name, nat>, nid: Value): Result<Value, Error> {
    match nid
    case Null => Ok(Null)
    case Int(i) =>
      if i == 0 then Ok(Null)
      else if i > 0 && NameOf(m, i).Some? then Ok(NameValue(NameOf(m, i).value))
      else Ok(Str(PrintInt(i)))
    case Str(s) => Err(ExpectedNumber(s))
    case _ => Err(UnsupportedId)
  }

  datatype Direction = ToNid | ToSid

  ghost function Replacer(m: map<Name, nat>, to: Direction, id: Value): Result<Value, Error> {
    if to == ToNid then FindNid(m, id) else FindSid(m, id)
  }

  /** The number that an ID stands for. */
  predicate StandsFor(m: map<Name, nat>, id: Value, n: int) {
    match id
    case Null => n == 0
    case Int(i) => n == i
    case Str(s) => if s != "" && AllDigits(s) then ParseNat(s) == n else Some(s) in m && m[Some(s)] == n
    case _ => false
  }

  predicate IsUnsupported(id: Value) {
    id.Bool? || id.Real? || id.List? || id.Dict?
  }

  /** A number is found for exactly the IDs that stand for one; the others are unknown names, or no IDs. */
  lemma FindNidExactly(m: map<Name, nat>, id: Value, r: Result<Value, Error>)
    ensures FindNid(m, id) == r <==>
            match r
            case Ok(v) => v.Int? && StandsFor(m, id, v.i)
            case Err(UnknownId(s)) => id == Str(s) && !(s != "" && AllDigits(s)) && Some(s) !in m
            case Err(UnsupportedId) => IsUnsupported(id)
            case Err(_) => false
  {
  }

  lemma DigitsRead(n: nat)
    ensures IsSpelled(PrintNat(n)) && ParseNat(OnlyDigits(PrintNat(n))) == n
  {
    hide PrintNat, ParseNat, OnlyDigits;
    ParsePrintNat(n);
    OnlyDigitsOf(PrintNat(n));
  }

  /** Numbers that are shown as text read as themselves. */
  lemma PrintedIntReads(n: int)
    ensures ParseInt(PrintInt(n)) == Some(n)
  {
    hide PrintNat, ParseNat, OnlyDigits, IsSpelled, ParseInt, Strip;
    var size := if n < 0 then -n else n;
    DigitsRead(size);
    SpelledEnds(PrintNat(size));
    assert IsInt(PrintInt(n), if n < 0 then "-" else "", PrintNat(size), n);
    StripNothing(PrintInt(n));
    IntExactly(PrintInt(n), n);
  }

  /** A name that is stored for the number, or else the number as text. */
  ghost predicate IsShownAs(m: map<Name, nat>, n: int, v: Value) {
    if n == 0 then v == Null
    else if exists name :: name in m && m[name] == n then
      exists name :: name in m && m[name] == n && v == NameValue(name)
    else v == Str(PrintInt(n))
  }

  /** What is shown for an ID: nothing for zero, and names only for numbers. */
  lemma FindSidExactly(m: map<Name, nat>, id: Value, r: Result<Value, Error>)
    requires IsInjective(m)
    ensures FindSid(m, id) == r <==>
            match r
            case Ok(v) => (id == Null && v == Null) || (id.Int? && IsShownAs(m, id.i, v))
            case Err(ExpectedNumber(s)) => id == Str(s)
            case Err(UnsupportedId) => IsUnsupported(id)
            case Err(_) => false
  {
  }

  method Replace(store: Store, to: Direction, id: Value) returns (r: Result<Value, Error>)
    requires store.Valid()
    ensures r == Replacer(store.forward, to, id)
  {
    if to == ToNid {
      return FindNid(store.forward, id);
    }
    if id.Int? && id.i > 0 {
      NameOfInverse(store, id.i);
      return if id.i in store.inverse then Ok(NameValue(store.inverse[id.i])) else Ok(Str(PrintInt(id.i)));
    }
    r := match id
      case Null => Ok(Null)
      case Int(i) => if i == 0 then Ok(Null) else Ok(Str(PrintInt(i)))
      case Str(s) => Err(ExpectedNumber(s))
      case _ => Err(UnsupportedId);
  }

  predicate HasLinkKey(v: Value, i: nat)
    requires i < ChildCount(v)
  {
    v.Dict? && v.entries[i].key != "" && v.entries[i].key[|v.entries[i].key| - 1] == LINK_POSTFIX
  }

  // ---- Rewriting ------------------------------------------------------------------------

  /** A link object with another ID. */
  ghost function ResolveLink(m: map<Name, nat>, to: Direction, link: Value): Result<Value, Error>
    requires link.Dict?
  {
    if Get(link.entries, "id").None? then Err(MissingId)
    else
      var id := Replacer(m, to, Get(link.entries, "id").value);
      if id.Err? then id else Ok(Dict(Assigned(link.entries, "id", id.value)))
  }

  ghost function ResolveChild(m: map<Name, nat>, to: Direction, v: Value, i: nat): Result<Value, Error>
    requires i < ChildCount(v)
    decreases v, 0, 0
  {
    var child := ChildAt(v, i);
    if IsLink(child) then ResolveLink(m, to, child)
    else if HasLinkKey(v, i) then Replacer(m, to, child)
    else if IsContainer(child) then ResolveAll(m, to, child, ChildCount(child))
    else Ok(child)
  }

  /** `data` after the first `n` children were rewritten. */
  ghost function ResolveAll(m: map<Name, nat>, to: Direction, v: Value, n: nat): (r: Result<Value, Error>)
    requires n <= ChildCount(v)
    ensures r.Ok? ==> ChildCount(r.value) == ChildCount(v)
    decreases v, 1, n
  {
    if n == 0 then Ok(v)
    else
      var earlier := ResolveAll(m, to, v, n - 1);
      if earlier.Err? then earlier
      else
        var child := ResolveChild(m, to, v, n - 1);
        if child.Err? then child else Ok(SetChild(earlier.value, n - 1, child.value))
  }

  /** `resolve_data_ids(data, replacer)` */
  ghost function Resolve(m: map<Name, nat>, to: Direction, data: Value): Result<Value, Error> {
    ResolveAll(m, to, data, ChildCount(data))
  }

  /** Children are rewritten one by one, and nothing else changes. */
  lemma {:induction false} ResolvedChildren(m: map<Name, nat>, to: Direction, v: Value, n: nat)
    requires n <= ChildCount(v) && ResolveAll(m, to, v, n).Ok?
    ensures var r := ResolveAll(m, to, v, n).value;
            && (forall k :: 0 <= k < n ==> ResolveChild(m, to, v, k) == Ok(ChildAt(r, k)))
            && (forall k :: n <= k < ChildCount(v) ==> ChildAt(r, k) == ChildAt(v, k))
            && (forall k :: 0 <= k < ChildCount(v) ==> HasLinkKey(r, k) == HasLinkKey(v, k))
            && SameKeys(v, r)
    decreases n
  {
    hide ResolveChild, IsLink;
    if n > 0 {
      ResolvedChildren(m, to, v, n - 1);
    }
  }

  // ---- What a failure leaves behind ---------------------------------------------------

  /** The data that is left when rewriting ends, and the error that ended it. */
  datatype Attempt = Attempt(data: Value, error: Option<Error>)

  /** A failed replacement changes nothing. */
  function Attempted(before: Value, r: Result<Value, Error>): Attempt {
    if r.Ok? then Attempt(r.value, None) else Attempt(before, Some(r.error))
  }

  ghost function TriedChild(m: map<Name, nat>, to: Direction, v: Value, i: nat): Attempt
    requires i < ChildCount(v)
    decreases v, 0, 0
  {
    var child := ChildAt(v, i);
    if IsLink(child) then Attempted(child, ResolveLink(m, to, child))
    else if HasLinkKey(v, i) then Attempted(child, Replacer(m, to, child))
    else if IsContainer(child) then Tried(m, to, child, ChildCount(child))
    else Attempt(child, None)
  }

  /** The first `n` children of `v`, up to the first failure. */
  ghost function Tried(m: map<Name, nat>, to: Direction, v: Value, n: nat): (r: Attempt)
    requires n <= ChildCount(v)
    ensures ChildCount(r.data) == ChildCount(v)
    decreases v, 1, n
  {
    if n == 0 then Attempt(v, None)
    else
      var earlier := Tried(m, to, v, n - 1);
      if earlier.error.Some? then earlier
      else
        var child := TriedChild(m, to, v, n - 1);
        Attempt(SetChild(earlier.data, n - 1, child.data), child.error)
  }

  lemma TriedChildExactly(m: map<Name, nat>, to: Direction, v: Value, i: nat)
    requires i < ChildCount(v)
    ensures match ResolveChild(m, to, v, i)
            case Ok(r) => TriedChild(m, to, v, i) == Attempt(r, None)
            case Err(e) => TriedChild(m, to, v, i).error == Some(e)
    decreases v, 0, 0
  {
    hide ResolveLink, Replacer, ResolveAll, Tried, IsLink;
    var child := ChildAt(v, i);
    if !IsLink(child) && !HasLinkKey(v, i) && IsContainer(child) {
      TriedExactly(m, to, child, ChildCount(child));
    }
  }

  /** Rewriting fails with the error of the first child that fails, and otherwise gives the rewritten data. */
  lemma {:induction false} TriedExactly(m: map<Name, nat>, to: Direction, v: Value, n: nat)
    requires n <= ChildCount(v)
    ensures match ResolveAll(m, to, v, n)
            case Ok(r) => Tried(m, to, v, n) == Attempt(r, None)
            case Err(e) => Tried(m, to, v, n).error == Some(e)
    decreases v, 1, n
  {
    hide ResolveChild, TriedChild;
    if n > 0 {
      TriedExactly(m, to, v, n - 1);
      TriedChildExactly(m, to, v, n - 1);
    }
  }

  /** The first failure ends the traversal. */
  lemma {:induction false} TriedStops(m: map<Name, nat>, to: Direction, v: Value, i: nat, n: nat)
    requires i <= n <= ChildCount(v) && Tried(m, to, v, i).error.Some?
    ensures Tried(m, to, v, n) == Tried(m, to, v, i)
    decreases n
  {
    hide TriedChild;
    if i < n {
      TriedStops(m, to, v, i, n - 1);
    }
  }
}

/** The code the generator emits for a message: one write and one read per field, in the order of the schema. */
module Schemas {
  import opened Wrappers
  import opened Fragments
  import opened Codecs

  /** What ResolveType makes of a field. A vector may name the field that holds its size. */
  datatype Type =
    | TInt(width: int)
    | TFloat(width: int)
    | TBool
    | TEnum
    | TString
    | TMessage(fields: seq<Type>)
    | TVector(elem: Type, sizeElement: Option<int>)

  datatype Value =
    | VInt(i: int)
    | VFloat(raw: seq<byte>)
    | VBool(b: bool)
    | VString(s: seq<byte>)
    | VMessage(values: seq<Value>)
    | VVector(items: seq<Value>)

  /** A packet's own fields and those of the messages inside it are written differently. */
  datatype Mode = Packet | Nested

  datatype Read<T> = Ok(value: T, rest: seq<byte>) | Throws

  // ---------------------------------------------------------------- schemas and values

  /** What the two generators can emit code for. */
  predicate WellFormed(m: Mode, t: Type)
    decreases t
  {
    match t
    case TInt(w) => w == 1 || w == 2 || w == 4 || w == 8
    case TFloat(w) => w == 4 || w == 8
    case TMessage(fs) => forall k :: 0 <= k < |fs| ==> WellFormed(Nested, fs[k])
    case TVector(e, size) =>
      && WellFormed(Nested, e) && !e.TString? && !e.TVector? && !e.TEnum?
      && (m.Packet? ==> size.Some?)
    case _ => true
  }

  /** What the C++ type of a field admits. */
  predicate Typed(t: Type, v: Value)
    decreases t
  {
    match t
    case TInt(w) => v.VInt? && w > 0 && InRange(w, v.i)
    case TFloat(w) => v.VFloat? && |v.raw| == w
    case TBool => v.VBool?
    case TEnum => v.VInt? && InRange(4, v.i)
    case TString => v.VString?
    case TMessage(fs) => v.VMessage? && |v.values| == |fs| && forall k :: 0 <= k < |fs| ==> Typed(fs[k], v.values[k])
    case TVector(e, _) => v.VVector? && forall k :: 0 <= k < |v.items| ==> Typed(e, v.items[k])
  }

  /** The size field's value among the fields read so far; a field not read yet still holds zero. */
  function SizeOf(done: seq<Value>, i: int): int {
    if 0 <= i < |done| && done[i].VInt? then done[i].i else 0
  }

  // ---------------------------------------------------------------- Serialize

  function Encode(m: Mode, t: Type, v: Value): seq<byte>
    requires Typed(t, v)
    decreases t, 1, 0
  {
    match t
    case TInt(w) => EncodeInt(w, v.i)
    case TFloat(_) => v.raw
    case TBool => [if v.b then 1 else 0]
    case TEnum => EncodeInt(4, v.i)
    case TString => EncodeString(m, v.s)
    case TMessage(_) => EncodeFields(Nested, t, v, 0)
    case TVector(e, size) =>
      (if m.Nested? && size.None? then EncodeInt(2, Wrap(2, |v.items|)) else []) + EncodeItems(e, v.items)
  }

  /** An int16 length and the bytes; inside messages the length counts a terminating zero. */
  function EncodeString(m: Mode, s: seq<byte>): seq<byte> {
    match m
    case Packet => EncodeInt(2, Wrap(2, |s|)) + s
    case Nested => EncodeInt(2, Wrap(2, Wrap(2, |s|) + 1)) + s + [0]
  }

  /** The fields of message `t` from the `k`-th on. */
  function EncodeFields(m: Mode, t: Type, v: Value, k: nat): seq<byte>
    requires t.TMessage? && Typed(t, v) && k <= |t.fields|
    decreases t, 0, |t.fields| - k
  {
    if k == |t.fields| then [] else Encode(m, t.fields[k], v.values[k]) + EncodeFields(m, t, v, k + 1)
  }

  function EncodeItems(e: Type, items: seq<Value>): seq<byte>
    requires forall k :: 0 <= k < |items| ==> Typed(e, items[k])
    decreases e, 2, |items|
  {
    if items == [] then [] else Encode(Nested, e, items[0]) + EncodeItems(e, items[1..])
  }

  // ---------------------------------------------------------------- Deserialize

  function TakeInt(w: nat, bytes: seq<byte>): Read<int> {
    if |bytes| < w then Throws else Ok(DecodeInt(bytes[..w]), bytes[w..])
  }

  /** ReadString(size): a zero at the end is dropped. */
  function TakeString(size: int, bytes: seq<byte>): Read<seq<byte>> {
    if size <= 0 then Ok([], bytes)
    else if |bytes| < size then Throws
    else Ok(if bytes[size - 1] == 0 then bytes[..size - 1] else bytes[..size], bytes[size..])
  }

  /** `done` are the fields of the enclosing message read so far. */
  function Decode(m: Mode, t: Type, done: seq<Value>, bytes: seq<byte>): Read<Value>
    decreases t, 1, 0
  {
    match t
    case TInt(w) => if w < 0 then Throws
      else (match TakeInt(w, bytes) case Throws => Throws case Ok(i, rest) => Ok(VInt(i), rest))
    case TFloat(w) => if w < 0 || |bytes| < w then Throws else Ok(VFloat(bytes[..w]), bytes[w..])
    case TBool => if bytes == [] then Throws else Ok(VBool(bytes[0] != 0), bytes[1..])
    case TEnum => (match TakeInt(4, bytes) case Throws => Throws case Ok(i, rest) => Ok(VInt(i), rest))
    case TString => DecodeString(bytes)
    case TMessage(_) => DecodeFields(Nested, t, [], bytes)
    case TVector(e, Some(i)) => DecodeVector(m, e, SizeOf(done, i), bytes)
    case TVector(e, None) =>
      (match TakeInt(2, bytes) case Throws => Throws case Ok(n, rest) => DecodeVector(m, e, n, rest))
  }

  function DecodeString(bytes: seq<byte>): Read<Value> {
    match TakeInt(2, bytes)
    case Throws => Throws
    case Ok(size, rest) =>
      match TakeString(size, rest)
      case Throws => Throws
      case Ok(s, rest') => Ok(VString(s), rest')
  }

  /** A packet's loop runs while i < n; a message reserves `n` places first, which fails for a negative number. */
  function DecodeVector(m: Mode, e: Type, n: int, bytes: seq<byte>): Read<Value>
    decreases e, 3, 0
  {
    if m.Nested? && n < 0 then Throws
    else
      match DecodeItems(e, n, bytes)
      case Throws => Throws
      case Ok(items, rest) => Ok(VVector(items), rest)
  }

  function DecodeItems(e: Type, n: int, bytes: seq<byte>): Read<seq<Value>>
    decreases e, 2, if n > 0 then n else 0
  {
    if n <= 0 then Ok([], bytes)
    else
      match Decode(Nested, e, [], bytes)
      case Throws => Throws
      case Ok(v, rest) =>
        match DecodeItems(e, n - 1, rest)
        case Throws => Throws
        case Ok(vs, rest') => Ok([v] + vs, rest')
  }

  function DecodeFields(m: Mode, t: Type, done: seq<Value>, bytes: seq<byte>): Read<Value>
    requires t.TMessage? && |done| <= |t.fields|
    decreases t, 0, |t.fields| - |done|
  {
    if |done| == |t.fields| then Ok(VMessage(done), bytes)
    else
      match Decode(m, t.fields[|done|], done, bytes)
      case Throws => Throws
      case Ok(v, rest) => DecodeFields(m, t, done + [v], rest)
  }

  // ---------------------------------------------------------------- which values survive

  predicate Encodable(m: Mode, t: Type, done: seq<Value>, v: Value)
    requires Typed(t, v)
    decreases t, 0
  {
    match t
    case TString => EncodableString(m, v.s)
    case TMessage(fs) => forall k :: 0 <= k < |fs| ==> Encodable(Nested, fs[k], v.values[..k], v.values[k])
    case TVector(e, size) => EncodableCount(m, size, done, |v.items|) && AllEncodable(e, v.items)
    case _ => true
  }

  predicate EncodableString(m: Mode, s: seq<byte>) {
    match m
    case Packet => |s| <= 32767 && (s == [] || s[|s| - 1] != 0)
    case Nested => |s| <= 32766
  }

  predicate EncodableCount(m: Mode, size: Option<int>, done: seq<Value>, n: int) {
    match size
    case None => n <= 32767
    case Some(i) => SizeOf(done, i) == n || (m.Packet? && n == 0 && SizeOf(done, i) < 0)
  }

  predicate AllEncodable(e: Type, items: seq<Value>)
    requires forall k :: 0 <= k < |items| ==> Typed(e, items[k])
    decreases e, 1
  {
    forall k :: 0 <= k < |items| ==> Encodable(Nested, e, [], items[k])
  }

  // ---------------------------------------------------------------- round trips

  lemma IntSurvives(w: nat, x: int, rest: seq<byte>)
    requires w > 0
    ensures TakeInt(w, EncodeInt(w, x) + rest) == Ok(Wrap(w, x), rest)
  {
    var s := EncodeInt(w, x);
    assert (s + rest)[..w] == s && (s + rest)[w..] == rest;
    IntRoundTrip(w, x);
  }

  lemma Pow2Is()
    ensures Pow256(2) == 65536
  {
    assert Pow256(1) == 256;
  }

  /** A packet's string survives exactly when its length fits and it does not end in a zero. */
  lemma PacketString(s: seq<byte>, rest: seq<byte>)
    ensures DecodeString(EncodeString(Packet, s) + rest) == Ok(VString(s), rest) <==> EncodableString(Packet, s)
    ensures !EncodableString(Packet, s) ==>
              var r := DecodeString(EncodeString(Packet, s) + rest); r.Ok? ==> r.value != VString(s)
  {
    Pow2Is();
    var n := Wrap(2, |s|);
    IntSurvives(2, n, s + rest);
    assert EncodeString(Packet, s) + rest == EncodeInt(2, n) + (s + rest);
    var whole := s + rest;
    if |s| <= 32767 {
      assert n == |s|;
      assert whole[..n] == s && whole[n..] == rest;
    } else {
      assert n < |s|;
    }
  }

  /** A message's string survives exactly when its length with the terminating zero fits. */
  lemma NestedString(s: seq<byte>, rest: seq<byte>)
    ensures DecodeString(EncodeString(Nested, s) + rest) == Ok(VString(s), rest) <==> EncodableString(Nested, s)
    ensures !EncodableString(Nested, s) ==>
              var r := DecodeString(EncodeString(Nested, s) + rest); r.Ok? ==> r.value != VString(s)
  {
    Pow2Is();
    var n := Wrap(2, Wrap(2, |s|) + 1);
    var whole := s + [0] + rest;
    IntSurvives(2, n, whole);
    assert EncodeString(Nested, s) + rest == EncodeInt(2, n) + whole;
    if |s| <= 32766 {
      assert n == |s| + 1;
      assert whole[..n - 1] == s && whole[n..] == rest;
    } else {
      assert n < |s|;
    }
  }

  /** The reader either gets `v` back and stops right behind it, or does not get `v`. */
  ghost predicate Survives(r: Read<Value>, v: Value, rest: seq<byte>, encodable: bool) {
    if encodable then r == Ok(v, rest) else r.Ok? ==> r.value != v
  }

  lemma {:induction false} ItemsCount(e: Type, n: int, bytes: seq<byte>)
    ensures var r := DecodeItems(e, n, bytes); r.Ok? ==> |r.value| == if n > 0 then n else 0
    decreases if n > 0 then n else 0
  {
    hide Decode;
    if n > 0 {
      var r := Decode(Nested, e, [], bytes);
      if r.Ok? {
        ItemsCount(e, n - 1, r.rest);
      }
    }
  }

  lemma {:induction false} FieldsExtend(m: Mode, t: Type, done: seq<Value>, bytes: seq<byte>)
    requires t.TMessage? && |done| <= |t.fields|
    ensures var r := DecodeFields(m, t, done, bytes); r.Ok? ==> r.value.VMessage? && done <= r.value.values
    decreases |t.fields| - |done|
  {
    hide Decode;
    if |done| < |t.fields| {
      var r := Decode(m, t.fields[|done|], done, bytes);
      if r.Ok? {
        FieldsExtend(m, t, done + [r.value], r.rest);
      }
    }
  }

  lemma ItemsUnfold(e: Type, n: int, bytes: seq<byte>)
    requires n > 0
    ensures var r := Decode(Nested, e, [], bytes);
            && (r.Throws? ==> DecodeItems(e, n, bytes).Throws?)
            && (r.Ok? ==> var rs := DecodeItems(e, n - 1, r.rest);
                          DecodeItems(e, n, bytes) == if rs.Throws? then Throws else Ok([r.value] + rs.value, rs.rest))
  {}

  ghost predicate ItemsSurvive(r: Read<seq<Value>>, items: seq<Value>, rest: seq<byte>, encodable: bool) {
    if encodable then r == Ok(items, rest) else r.Ok? ==> r.value != items
  }

  lemma {:induction false} ItemsRoundTrip(e: Type, items: seq<Value>, n: int, rest: seq<byte>)
    requires WellFormed(Nested, e) && forall k :: 0 <= k < |items| ==> Typed(e, items[k])
    ensures ItemsSurvive(DecodeItems(e, n, EncodeItems(e, items) + rest), items, rest,
                         (n == |items| || (n < 0 && items == [])) && AllEncodable(e, items))
    decreases e, 2, |items|
  {
    hide Decode;
    hide Encode;
    hide Encodable;
    hide WellFormed;
    hide Typed;
    var bytes := EncodeItems(e, items) + rest;
    if items == [] {
      assert bytes == rest;
      ItemsCount(e, n, bytes);
    } else if n > 0 {
      var tail := EncodeItems(e, items[1..]) + rest;
      RoundTrip(Nested, e, [], items[0], tail);
      assert bytes == Encode(Nested, e, items[0]) + tail;
      ItemsRoundTrip(e, items[1..], n - 1, rest);
      ItemsUnfold(e, n, bytes);
      TailEncodable(e, items);
      hide DecodeItems;
      hide AllEncodable;
      hide EncodeItems;
      var r := Decode(Nested, e, [], bytes);
      assert items == [items[0]] + items[1..];
    }
  }

  lemma TailEncodable(e: Type, items: seq<Value>)
    requires items != [] && forall k :: 0 <= k < |items| ==> Typed(e, items[k])
    ensures AllEncodable(e, items) <==> Encodable(Nested, e, [], items[0]) && AllEncodable(e, items[1..])
  {
    hide Encodable;
    hide Typed;
    assert forall k :: 0 <= k < |items| - 1 ==> items[1..][k] == items[k + 1];
    if Encodable(Nested, e, [], items[0]) && AllEncodable(e, items[1..]) {
      forall k | 0 <= k < |items|
        ensures Encodable(Nested, e, [], items[k])
      {
        if k > 0 {
          assert items[k] == items[1..][k - 1];
        }
      }
    }
  }

  ghost predicate FieldsEncodable(m: Mode, t: Type, v: Value, k: nat)
    requires t.TMessage? && Typed(t, v) && k <= |t.fields|
  {
    forall j :: k <= j < |t.fields| ==> Encodable(m, t.fields[j], v.values[..j], v.values[j])
  }

  /** A schema whose vectors, like a packet's, all name a size field of the packet or carry their own count. */
  predicate WellFormedFields(m: Mode, t: Type)
    requires t.TMessage?
  {
    forall k :: 0 <= k < |t.fields| ==> WellFormed(m, t.fields[k])
  }

  lemma {:induction false} FieldsRoundTrip(m: Mode, t: Type, v: Value, k: nat, rest: seq<byte>)
    requires t.TMessage? && WellFormedFields(m, t) && Typed(t, v) && k <= |t.fields|
    ensures Survives(DecodeFields(m, t, v.values[..k], EncodeFields(m, t, v, k) + rest), v, rest,
            FieldsEncodable(m, t, v, k))
    decreases t, 0, |t.fields| - k
  {
    hide Decode;
    hide Encode;
    hide Encodable;
    hide WellFormed;
    var bytes, done := EncodeFields(m, t, v, k) + rest, v.values[..k];
    if k == |t.fields| {
      assert bytes == rest && done == v.values;
    } else {
      var f, x := t.fields[k], v.values[k];
      var tail := EncodeFields(m, t, v, k + 1) + rest;
      RoundTrip(m, f, done, x, tail);
      assert bytes == Encode(m, f, x) + tail;
      var r := Decode(m, f, done, bytes);
      if r.Ok? {
        FieldsExtend(m, t, done + [r.value], r.rest);
        if r.value == x {
          assert done + [x] == v.values[..k + 1];
          FieldsRoundTrip(m, t, v, k + 1, rest);
        }
      }
    }
  }

  /** Exactly the encodable values come back, and the reader stops right behind them. */
  lemma {:induction false} RoundTrip(m: Mode, t: Type, done: seq<Value>, v: Value, rest: seq<byte>)
    requires WellFormed(m, t) && Typed(t, v)
    ensures Survives(Decode(m, t, done, Encode(m, t, v) + rest), v, rest, Encodable(m, t, done, v))
    decreases t, 1, 0
  {
    match t {
      case TInt(w) => { IntSurvives(w, v.i, rest); }
      case TFloat(w) => { assert (v.raw + rest)[..w] == v.raw && (v.raw + rest)[w..] == rest; }
      case TBool => {}
      case TEnum => { IntSurvives(4, v.i, rest); }
      case TString => {
        if m.Packet? { PacketString(v.s, rest); } else { NestedString(v.s, rest); }
      }
      case TMessage(fs) => {
        assert WellFormedFields(Nested, t);
        FieldsRoundTrip(Nested, t, v, 0, rest);
        assert v.values[..0] == [];
      }
      case TVector(e, size) => { VectorRoundTrip(m, t, done, v, rest); }
    }
  }

  lemma {:induction false} VectorRoundTrip(m: Mode, t: Type, done: seq<Value>, v: Value, rest: seq<byte>)
    requires t.TVector? && WellFormed(m, t) && Typed(t, v)
    ensures Survives(Decode(m, t, done, Encode(m, t, v) + rest), v, rest, Encodable(m, t, done, v))
    decreases t, 0, 0
  {
    hide EncodeItems;
    hide DecodeItems;
    hide EncodeInt;
    hide AllEncodable;
    var e, items := t.elem, v.items;
    var tail := EncodeItems(e, items) + rest;
    if t.sizeElement.Some? {
      assert Encode(m, t, v) + rest == tail;
      ItemsRoundTrip(e, items, SizeOf(done, t.sizeElement.value), rest);
    } else {
      var n := Wrap(2, |items|);
      CountWraps(|items|);
      hide Wrap;
      assert Encode(m, t, v) + rest == EncodeInt(2, n) + tail;
      IntSurvives(2, n, tail);
      hide TakeInt;
      ItemsRoundTrip(e, items, n, rest);
    }
  }

  lemma CountWraps(n: nat)
    ensures Wrap(2, Wrap(2, n)) == Wrap(2, n) && (Wrap(2, n) == n <==> n <= 32767) && (n == 0 ==> Wrap(2, n) == 0)
  {
    Pow2Is();
  }
}

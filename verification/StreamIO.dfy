/** Stream reader and writer, and the emitted Serialize and Deserialize running on them. */
module StreamIO {
  import opened Wrappers
  import opened Fragments
  import opened Codecs
  import opened Schemas

  // ---------------------------------------------------------------- StreamReader

  /** None where the code throws; then nothing has been read. */
  class StreamReader {
    const data: seq<byte>
    var iter: int
    var readSize: int
    var remainSize: int

    constructor (d: seq<byte>)
      ensures Valid() && data == d && Rest() == d
    {
      data, iter, readSize, remainSize := d, 0, 0, |d|;
    }

    predicate Valid()
      reads this
    {
      0 <= iter <= |data| && readSize == iter && remainSize == |data| - iter
    }

    function Rest(): seq<byte>
      requires Valid()
      reads this
    {
      data[iter..]
    }

    predicate CanRead(size: int)
      reads this
    {
      remainSize >= size
    }

    /** Read of an integer type of `w` bytes; arithmetic is in that type. */
    method ReadInt(w: nat) returns (r: Option<int>)
      requires Valid() && w > 0
      modifies this
      ensures Valid()
      ensures match TakeInt(w, old(Rest()))
              case Throws => r.None? && Rest() == old(Rest())
              case Ok(x, rest) => r == Some(x) && Rest() == rest
    {
      hide Wrap;
      hide Unsigned;
      hide Pow256;
      hide TakeInt;
      ghost var from := iter;
      TakenInt(data, iter, w);
      if !CanRead(w) {
        return None;
      }
      var result := 0;
      NothingRead(w);
      for i := 0 to w
        invariant iter == from + i <= |data| && readSize == from && remainSize == |data| - from
        invariant result == Wrap(w, Unsigned(data[from..from + i]))
      {
        assert data[from..from + i + 1] == data[from..from + i] + [data[iter]];
        NextByte(w, data[from..from + i], data[iter]);
        result := Wrap(w, result + Wrap(w, data[iter] * Pow256(i)));
        iter := iter + 1;
      }
      readSize, remainSize := readSize + w, remainSize - w;
      return Some(result);
    }

    /** Read of a floating point type, or of the bytes of any object of `w` bytes. */
    method ReadRaw(w: nat) returns (r: Option<seq<byte>>)
      requires Valid()
      modifies this
      ensures Valid()
      ensures if |old(Rest())| < w then r.None? && Rest() == old(Rest())
              else r == Some(old(Rest())[..w]) && Rest() == old(Rest())[w..]
    {
      if !CanRead(w) {
        return None;
      }
      r := Some(data[iter..iter + w]);
      assert data[iter..][..w] == data[iter..iter + w] && data[iter..][w..] == data[iter + w..];
      iter, readSize, remainSize := iter + w, readSize + w, remainSize - w;
    }

    method ReadString(size: int) returns (r: Option<seq<byte>>)
      requires Valid()
      modifies this
      ensures Valid()
      ensures match TakeString(size, old(Rest()))
              case Throws => r.None? && Rest() == old(Rest())
              case Ok(s, rest) => r == Some(s) && Rest() == rest
    {
      if size <= 0 {
        return Some([]);
      }
      if !CanRead(size) {
        return None;
      }
      ghost var from := iter;
      var result: seq<byte> := [];
      for i := 0 to size
        invariant iter == from + i <= |data| && readSize == from && remainSize == |data| - from
        invariant result == data[from..from + i]
      {
        result := result + [data[iter]];
        iter := iter + 1;
      }
      assert data[from..][..size] == result && data[from..][size..] == data[iter..]
             && data[from..][..size - 1] == result[..size - 1];
      if result != [] && result[|result| - 1] == 0 {
        result := result[..|result| - 1];
      }
      readSize, remainSize := readSize + size, remainSize - size;
      return Some(result);
    }

    /** ReadString(): up to the first zero; without one, nothing is read. */
    method ReadTerminated() returns (r: seq<byte>)
      requires Valid()
      modifies this
      ensures Valid() && 0 !in r
      ensures 0 in old(Rest()) ==> old(Rest()) == r + [0] + Rest()
      ensures 0 !in old(Rest()) ==> r == [] && Rest() == old(Rest())
    {
      var size, i := 0, iter;
      while i != |data|
        invariant iter <= i <= |data| && size == i - iter && Valid() && iter == old(iter)
        invariant 0 !in data[iter..i]
        decreases |data| - i
      {
        assert data[iter..i + 1] == data[iter..i] + [data[i]];
        if data[i] == 0 {
          size := size + 1;
          TerminatedAt(data, iter, i);
          hide TakeString;
          var s := ReadString(size);
          return s.value;
        }
        size, i := size + 1, i + 1;
      }
      assert data[iter..i] == Rest();
      return [];
    }

    /** False where the code throws; a size that is not positive is ignored. */
    method Skip(size: int) returns (ok: bool)
      requires Valid()
      modifies this
      ensures Valid() && ok == (size <= 0 || size <= |old(Rest())|)
      ensures Rest() == if 0 < size <= |old(Rest())| then old(Rest())[size..] else old(Rest())
    {
      if size <= 0 {
        return true;
      }
      if !CanRead(size) {
        return false;
      }
      assert data[iter..][size..] == data[iter + size..];
      iter, readSize, remainSize := iter + size, readSize + size, remainSize - size;
      return true;
    }
  }

  lemma TakenInt(data: seq<byte>, from: int, w: nat)
    requires 0 <= from <= |data|
    ensures TakeInt(w, data[from..]) == if from + w > |data| then Throws
            else Ok(Wrap(w, Unsigned(data[from..from + w])), data[from + w..])
  {
    hide Wrap;
    hide Unsigned;
    if from + w <= |data| {
      assert data[from..][..w] == data[from..from + w] && data[from..][w..] == data[from + w..];
    }
  }

  lemma NothingRead(w: nat)
    ensures Wrap(w, Unsigned([])) == 0
  {
    if w > 0 {
      WrapUnique(Pow256(w), 0);
    }
  }

  lemma TerminatedAt(data: seq<byte>, from: int, i: int)
    requires 0 <= from <= i < |data| && 0 !in data[from..i] && data[i] == 0
    ensures TakeString(i - from + 1, data[from..]) == Ok(data[from..i], data[i + 1..])
    ensures data[from..] == data[from..i] + [0] + data[i + 1..] && 0 in data[from..]
  {
    var whole := data[from..];
    assert whole[i - from] == 0 && whole[..i - from] == data[from..i] && whole[i - from + 1..] == data[i + 1..];
  }

  lemma {:induction false} UnsignedSnoc(s: seq<byte>, b: byte)
    ensures Unsigned(s + [b]) == Unsigned(s) + b * Pow256(|s|)
  {
    if s == [] {
      assert [b][1..] == [];
    } else {
      assert (s + [b])[1..] == s[1..] + [b];
      UnsignedSnoc(s[1..], b);
      var p := Pow256(|s| - 1);
      assert 256 * (b * p) == b * (256 * p);
    }
  }

  /** Adding the next byte in the integer type is adding it and wrapping once. */
  lemma NextByte(w: nat, s: seq<byte>, b: byte)
    requires w > 0
    ensures Wrap(w, Wrap(w, Unsigned(s)) + Wrap(w, b * Pow256(|s|))) == Wrap(w, Unsigned(s + [b]))
  {
    hide *;
    UnsignedSnoc(s, b);
    var x, y := Unsigned(s), b * Pow256(|s|);
    WrapSum(w, x, y);
  }

  lemma WrapSum(w: nat, x: int, y: int)
    requires w > 0
    ensures Wrap(w, Wrap(w, x) + Wrap(w, y)) == Wrap(w, x + y)
  {
    hide Pow256;
    hide WrapBy;
    WrapSumBy(Pow256(w), x, y);
  }

  lemma WrapSumBy(p: int, x: int, y: int)
    requires p >= 1
    ensures WrapBy(p, WrapBy(p, x) + WrapBy(p, y)) == WrapBy(p, x + y)
  {
    var k := WrapMultiple(p, x);
    var l := WrapMultiple(p, y);
    hide WrapBy;
    var s := WrapBy(p, x) + WrapBy(p, y);
    assert p * (k + l) == p * k + p * l;
    SameResidue(p, s, k + l);
  }

  lemma WrapMultiple(p: int, x: int) returns (k: int)
    requires p >= 1
    ensures x == WrapBy(p, x) + p * k
  {
    k := if WrapBy(p, x) == x % p then x / p else x / p + 1;
    assert x == p * (x / p) + x % p;
    assert p * (x / p + 1) == p * (x / p) + p;
  }

  lemma SameResidue(p: int, s: int, k: int)
    requires p >= 1
    ensures WrapBy(p, s + p * k) == WrapBy(p, s)
  {
    var q, r := s / p, s % p;
    assert p * (q + k) == p * q + p * k;
    ModUnique(s + p * k, p, q + k, r);
  }

  // ---------------------------------------------------------------- StreamWriter

  /** A writer that appends to a container. */
  class StreamWriter {
    var container: seq<byte>
    var writeSize: int

    constructor ()
      ensures container == [] && writeSize == 0
    {
      container, writeSize := [], 0;
    }

    method WriteBuffer(buffer: seq<byte>)
      modifies this
      ensures container == old(container) + buffer && writeSize == old(writeSize) + |buffer|
    {
      for i := 0 to |buffer|
        invariant container == old(container) + buffer[..i] && writeSize == old(writeSize)
      {
        container := container + [buffer[i]];
      }
      writeSize := writeSize + |buffer|;
    }

    method WriteInt(w: nat, x: int)
      modifies this
      ensures container == old(container) + EncodeInt(w, x) && writeSize == old(writeSize) + w
    {
      WriteBuffer(EncodeInt(w, x));
    }

    /** A message's string and its terminating zero. */
    method WriteString(s: seq<byte>)
      modifies this
      ensures container == old(container) + s + [0] && writeSize == old(writeSize) + |s| + 1
    {
      WriteBuffer(s);
      container, writeSize := container + [0], writeSize + 1;
    }
  }

  /** Serialize of one field of a message. */
  method SerializeField(w: StreamWriter, t: Type, v: Value)
    requires Typed(t, v)
    modifies w
    ensures w.container == old(w.container) + Encode(Nested, t, v)
            && w.writeSize == old(w.writeSize) + |Encode(Nested, t, v)|
    decreases t, 1, 0
  {
    hide EncodeInt;
    hide EncodeString;
    hide EncodeFields;
    hide EncodeItems;
    hide Wrap;
    hide InRange;
    match t {
      case TInt(width) => { w.WriteInt(width, v.i); }
      case TFloat(_) => { w.WriteBuffer(v.raw); }
      case TBool => { w.WriteBuffer([if v.b then 1 else 0]); }
      case TEnum => { w.WriteInt(4, v.i); }
      case TString => { SerializeString(w, v.s); }
      case TMessage(_) => { SerializeFields(w, t, v); }
      case TVector(e, size) => {
        if size.None? {
          w.WriteInt(2, Wrap(2, |v.items|));
        }
        SerializeItems(w, e, v.items);
      }
    }
  }

  method SerializeString(w: StreamWriter, s: seq<byte>)
    modifies w
    ensures w.container == old(w.container) + EncodeString(Nested, s)
            && w.writeSize == old(w.writeSize) + |EncodeString(Nested, s)|
  {
    w.WriteInt(2, Wrap(2, Wrap(2, |s|) + 1));
    w.WriteString(s);
  }

  /** Serialize of a message: its fields in order. */
  method SerializeFields(w: StreamWriter, t: Type, v: Value)
    requires t.TMessage? && Typed(t, v)
    modifies w
    ensures w.container == old(w.container) + EncodeFields(Nested, t, v, 0)
            && w.writeSize == old(w.writeSize) + |EncodeFields(Nested, t, v, 0)|
    decreases t, 0
  {
    hide Encode;
    for k := 0 to |t.fields|
      invariant w.container + EncodeFields(Nested, t, v, k) == old(w.container) + EncodeFields(Nested, t, v, 0)
      invariant w.writeSize - |w.container| == old(w.writeSize) - |old(w.container)|
    {
      SerializeField(w, t.fields[k], v.values[k]);
    }
  }

  method SerializeItems(w: StreamWriter, e: Type, items: seq<Value>)
    requires forall k :: 0 <= k < |items| ==> Typed(e, items[k])
    modifies w
    ensures w.container == old(w.container) + EncodeItems(e, items)
            && w.writeSize == old(w.writeSize) + |EncodeItems(e, items)|
    decreases e, 2
  {
    hide Encode;
    hide Typed;
    for k := 0 to |items|
      invariant w.container + EncodeItems(e, items[k..]) == old(w.container) + EncodeItems(e, items)
      invariant w.writeSize - |w.container| == old(w.writeSize) - |old(w.container)|
    {
      assert items[k..][0] == items[k] && items[k..][1..] == items[k + 1..];
      SerializeField(w, e, items[k]);
    }
    assert items[|items|..] == [];
  }

  // ---------------------------------------------------------------- Deserialize

  /** The reader has done what `expected` says. */
  ghost predicate HasRead<T>(expected: Read<T>, r: Option<T>, rest: seq<byte>) {
    match expected
    case Throws => r.None?
    case Ok(v, after) => r == Some(v) && rest == after
  }

  /** Deserialize of one field, when `done` have been read before it; None where it throws. */
  method DeserializeField(r: StreamReader, m: Mode, t: Type, done: seq<Value>) returns (v: Option<Value>)
    requires r.Valid() && WellFormed(m, t)
    modifies r
    ensures r.Valid() && HasRead(Decode(m, t, done, old(r.Rest())), v, r.Rest())
    decreases t, 1
  {
    match t {
      case TInt(w) => {
        var x := r.ReadInt(w);
        v := if x.None? then None else Some(VInt(x.value));
      }
      case TFloat(w) => {
        var x := r.ReadRaw(w);
        v := if x.None? then None else Some(VFloat(x.value));
      }
      case TBool => {
        var x := r.ReadRaw(1);
        v := if x.None? then None else Some(VBool(x.value[0] != 0));
      }
      case TEnum => {
        var x := r.ReadInt(4);
        v := if x.None? then None else Some(VInt(x.value));
      }
      case TString => { v := DeserializeString(r); }
      case TMessage(_) => {
        assert WellFormedFields(Nested, t);
        v := DeserializeFields(r, Nested, t);
      }
      case TVector(e, Some(i)) => { v := DeserializeVector(r, m, e, SizeOf(done, i)); }
      case TVector(e, None) => {
        var n := r.ReadInt(2);
        if n.None? {
          return None;
        }
        v := DeserializeVector(r, m, e, n.value);
      }
    }
  }

  method DeserializeString(r: StreamReader) returns (v: Option<Value>)
    requires r.Valid()
    modifies r
    ensures r.Valid() && HasRead(DecodeString(old(r.Rest())), v, r.Rest())
  {
    var size := r.ReadInt(2);
    if size.None? {
      return None;
    }
    var s := r.ReadString(size.value);
    v := if s.None? then None else Some(VString(s.value));
  }

  method DeserializeVector(r: StreamReader, m: Mode, e: Type, n: int) returns (v: Option<Value>)
    requires r.Valid() && WellFormed(Nested, e)
    modifies r
    ensures r.Valid() && HasRead(DecodeVector(m, e, n, old(r.Rest())), v, r.Rest())
    decreases e, 3
  {
    if m.Nested? && n < 0 {
      return None;
    }
    var items := DeserializeItems(r, e, n);
    v := if items.None? then None else Some(VVector(items.value));
  }

  function Prepended(items: seq<Value>, r: Read<seq<Value>>): Read<seq<Value>> {
    if r.Throws? then Throws else Ok(items + r.value, r.rest)
  }

  method DeserializeItems(r: StreamReader, e: Type, n: int) returns (v: Option<seq<Value>>)
    requires r.Valid() && WellFormed(Nested, e)
    modifies r
    ensures r.Valid() && HasRead(DecodeItems(e, n, old(r.Rest())), v, r.Rest())
    decreases e, 2
  {
    hide Decode;
    hide DecodeItems;
    hide WellFormed;
    var items: seq<Value>, i := [], 0;
    ItemsStart(e, n, r.Rest());
    while i < n
      invariant r.Valid() && 0 <= i && (i <= n || i == 0)
      invariant DecodeItems(e, n, old(r.Rest())) == Prepended(items, DecodeItems(e, n - i, r.Rest()))
      decreases n - i
    {
      ItemsUnfold(e, n - i, r.Rest());
      var x := DeserializeField(r, Nested, e, []);
      if x.None? {
        return None;
      }
      assert forall s: seq<Value> :: items + ([x.value] + s) == (items + [x.value]) + s;
      items, i := items + [x.value], i + 1;
    }
    ItemsStart(e, n - i, r.Rest());
    assert items + [] == items;
    return Some(items);
  }

  lemma ItemsStart(e: Type, n: int, bytes: seq<byte>)
    ensures DecodeItems(e, n, bytes) == Prepended([], DecodeItems(e, n, bytes))
    ensures n <= 0 ==> DecodeItems(e, n, bytes) == Ok([], bytes)
  {
    var r := DecodeItems(e, n, bytes);
    if r.Ok? {
      assert [] + r.value == r.value;
    }
  }

  /** Deserialize of a message: its fields in order, into an object whose fields start out empty. */
  method DeserializeFields(r: StreamReader, m: Mode, t: Type) returns (v: Option<Value>)
    requires r.Valid() && t.TMessage? && WellFormedFields(m, t)
    modifies r
    ensures r.Valid() && HasRead(DecodeFields(m, t, [], old(r.Rest())), v, r.Rest())
    decreases t, 0
  {
    hide Decode;
    hide WellFormed;
    var done: seq<Value> := [];
    for k := 0 to |t.fields|
      invariant r.Valid() && |done| == k && DecodeFields(m, t, [], old(r.Rest())) == DecodeFields(m, t, done, r.Rest())
    {
      var x := DeserializeField(r, m, t.fields[k], done);
      if x.None? {
        return None;
      }
      done := done + [x.value];
    }
    return Some(VMessage(done));
  }
}

/** What the emitted reads do on bytes that are no encoding: a value depends on just the bytes that were read for it,
    so that a message with its end cut off always throws. */
module SchemaLocality {
  import opened Wrappers
  import opened Fragments
  import opened Codecs
  import opened Schemas

  /** The bytes that were read when `rest` is left of them. */
  function Used(bytes: seq<byte>, rest: seq<byte>): seq<byte> {
    if |rest| <= |bytes| then bytes[..|bytes| - |rest|] else bytes
  }

  /** `r` was read off `bytes`, and `r'` is what is read when something else follows the bytes used for it. */
  ghost predicate Local<T>(bytes: seq<byte>, r: Read<T>, r': Read<T>, more: seq<byte>) {
    r.Ok? ==> bytes == Used(bytes, r.rest) + r.rest && r' == Ok(r.value, more)
  }

  lemma UsedTwice(bytes: seq<byte>, mid: seq<byte>, rest: seq<byte>, more: seq<byte>)
    requires bytes == Used(bytes, mid) + mid && mid == Used(mid, rest) + rest
    ensures bytes == Used(bytes, rest) + rest
    ensures Used(bytes, rest) + more == Used(bytes, mid) + (Used(mid, rest) + more)
  {
    var n := |bytes| - |mid|;
    assert |bytes| - |rest| == n + (|mid| - |rest|);
    assert Used(bytes, rest) == Used(bytes, mid) + Used(mid, rest);
  }

  lemma IntLocal(w: nat, bytes: seq<byte>, more: seq<byte>)
    ensures var r := TakeInt(w, bytes);
            r.Ok? ==> Local(bytes, r, TakeInt(w, Used(bytes, r.rest) + more), more)
  {
    if |bytes| >= w {
      assert (bytes[..w] + more)[..w] == bytes[..w] && (bytes[..w] + more)[w..] == more;
    }
  }

  lemma TakenLocal(size: int, bytes: seq<byte>, more: seq<byte>)
    ensures var r := TakeString(size, bytes);
            r.Ok? ==> Local(bytes, r, TakeString(size, Used(bytes, r.rest) + more), more)
  {
    if 0 < size <= |bytes| {
      var used := bytes[..size];
      assert (used + more)[..size] == used && (used + more)[size..] == more;
      assert (used + more)[..size - 1] == bytes[..size - 1];
    } else if size <= 0 {
      assert Used(bytes, bytes) + more == more;
    }
  }

  lemma StringLocal(bytes: seq<byte>, more: seq<byte>)
    ensures var r := DecodeString(bytes);
            r.Ok? ==> Local(bytes, r, DecodeString(Used(bytes, r.rest) + more), more)
  {
    hide TakeInt;
    hide TakeString;
    hide Used;
    var size := TakeInt(2, bytes);
    if size.Ok? {
      var s := TakeString(size.value, size.rest);
      if s.Ok? {
        TakenLocal(size.value, size.rest, more);
        IntLocal(2, bytes, Used(size.rest, s.rest) + more);
        UsedTwice(bytes, size.rest, s.rest, more);
      }
    }
  }

  /** Of any bytes at all, a field's value depends on no others than those that the reader moved past. */
  lemma {:induction false} DecodeLocal(m: Mode, t: Type, done: seq<Value>, bytes: seq<byte>, more: seq<byte>)
    ensures var r := Decode(m, t, done, bytes);
            r.Ok? ==> Local(bytes, r, Decode(m, t, done, Used(bytes, r.rest) + more), more)
    decreases t, 1, 0
  {
    match t
    case TInt(w) =>
      if w >= 0 { IntLocal(w, bytes, more); }
    case TFloat(w) =>
      if 0 <= w <= |bytes| {
        assert (bytes[..w] + more)[..w] == bytes[..w] && (bytes[..w] + more)[w..] == more;
      }
    case TBool =>
    case TEnum => IntLocal(4, bytes, more);
    case TString => StringLocal(bytes, more);
    case TMessage(_) => FieldsLocal(Nested, t, [], bytes, more);
    case TVector(e, Some(i)) => VectorLocal(m, e, SizeOf(done, i), bytes, more);
    case TVector(e, None) => CountedLocal(m, t, done, bytes, more);
  }

  lemma {:induction false} CountedLocal(m: Mode, t: Type, done: seq<Value>, bytes: seq<byte>, more: seq<byte>)
    requires t.TVector? && t.sizeElement.None?
    ensures var r := Decode(m, t, done, bytes);
            r.Ok? ==> Local(bytes, r, Decode(m, t, done, Used(bytes, r.rest) + more), more)
    decreases t, 0, 0
  {
    hide TakeInt;
    hide DecodeVector;
    hide Used;
    var n := TakeInt(2, bytes);
    if n.Ok? {
      var r := DecodeVector(m, t.elem, n.value, n.rest);
      if r.Ok? {
        VectorLocal(m, t.elem, n.value, n.rest, more);
        IntLocal(2, bytes, Used(n.rest, r.rest) + more);
        UsedTwice(bytes, n.rest, r.rest, more);
      }
    }
  }

  lemma {:induction false} VectorLocal(m: Mode, e: Type, n: int, bytes: seq<byte>, more: seq<byte>)
    ensures var r := DecodeVector(m, e, n, bytes);
            r.Ok? ==> Local(bytes, r, DecodeVector(m, e, n, Used(bytes, r.rest) + more), more)
    decreases e, 3, 0
  {
    hide DecodeItems;
    hide Used;
    ItemsLocal(e, n, bytes, more);
  }

  lemma {:induction false} ItemsLocal(e: Type, n: int, bytes: seq<byte>, more: seq<byte>)
    ensures var r := DecodeItems(e, n, bytes);
            r.Ok? ==> Local(bytes, r, DecodeItems(e, n, Used(bytes, r.rest) + more), more)
    decreases e, 2, if n > 0 then n else 0
  {
    hide Decode;
    if n > 0 {
      hide Used;
      var v := Decode(Nested, e, [], bytes);
      if v.Ok? {
        var vs := DecodeItems(e, n - 1, v.rest);
        if vs.Ok? {
          ItemsLocal(e, n - 1, v.rest, more);
          DecodeLocal(Nested, e, [], bytes, Used(v.rest, vs.rest) + more);
          UsedTwice(bytes, v.rest, vs.rest, more);
        }
      }
    }
  }

  lemma {:induction false} FieldsLocal(m: Mode, t: Type, done: seq<Value>, bytes: seq<byte>, more: seq<byte>)
    requires t.TMessage? && |done| <= |t.fields|
    ensures var r := DecodeFields(m, t, done, bytes);
            r.Ok? ==> Local(bytes, r, DecodeFields(m, t, done, Used(bytes, r.rest) + more), more)
    decreases t, 0, |t.fields| - |done|
  {
    hide Decode;
    if |done| < |t.fields| {
      hide Used;
      var v := Decode(m, t.fields[|done|], done, bytes);
      if v.Ok? {
        var vs := DecodeFields(m, t, done + [v.value], v.rest);
        if vs.Ok? {
          FieldsLocal(m, t, done + [v.value], v.rest, more);
          DecodeLocal(m, t.fields[|done|], done, bytes, Used(v.rest, vs.rest) + more);
          UsedTwice(bytes, v.rest, vs.rest, more);
        }
      }
    }
  }

  // ---------------------------------------------------------------- messages with the end cut off

  lemma NothingLeft(whole: seq<byte>, cut: seq<byte>, rest: seq<byte>)
    requires cut < whole && cut == Used(cut, rest) + rest
    ensures Used(cut, rest) + (rest + whole[|cut|..]) == whole && rest + whole[|cut|..] != []
  {
    assert Used(cut, rest) + (rest + whole[|cut|..]) == cut + whole[|cut|..];
  }

  /** Whatever is missing at its end, a packet that is cut short throws, and so no value has an encoding that is the
      front of another's. */
  lemma CutShort(m: Mode, t: Type, v: Value, cut: seq<byte>)
    requires t.TMessage? && WellFormedFields(m, t) && Typed(t, v) && FieldsEncodable(m, t, v, 0)
    requires cut < EncodeFields(m, t, v, 0)
    ensures DecodeFields(m, t, [], cut).Throws?
  {
    assert v.VMessage?;
    hide Typed;
    hide DecodeFields;
    hide EncodeFields;
    hide WellFormedFields;
    hide FieldsEncodable;
    var whole := EncodeFields(m, t, v, 0);
    var r := DecodeFields(m, t, [], cut);
    FieldsRoundTrip(m, t, v, 0, []);
    assert v.values[..0] == [] && whole + [] == whole;
    if r.Ok? {
      FieldsLocal(m, t, [], cut, r.rest + whole[|cut|..]);
      NothingLeft(whole, cut, r.rest);
    }
  }

  // ---------------------------------------------------------------- what no encoding says

  /** A length that is zero or negative stands for no bytes at all. */
  lemma NoString(n: int, rest: seq<byte>)
    requires InRange(2, n) && n <= 0
    ensures DecodeString(EncodeInt(2, n) + rest) == Ok(VString([]), rest)
  {
    IntSurvives(2, n, rest);
  }

  /** A negative number of items throws in a message, and is none in a packet. */
  lemma NegativeCount(e: Type, i: int, done: seq<Value>, n: int, bytes: seq<byte>)
    requires n < 0
    ensures InRange(2, n) ==> Decode(Nested, TVector(e, None), done, EncodeInt(2, n) + bytes).Throws?
    ensures SizeOf(done, i) == n ==> Decode(Nested, TVector(e, Some(i)), done, bytes).Throws?
    ensures SizeOf(done, i) == n ==> Decode(Packet, TVector(e, Some(i)), done, bytes) == Ok(VVector([]), bytes)
  {
    if InRange(2, n) {
      IntSurvives(2, n, bytes);
    }
    assert DecodeItems(e, n, bytes) == Ok([], bytes);
  }
}

/** The ABI coder: flattening typed arguments into field elements and consuming return values. */
module AbiCoder {

  datatype AbiType =
    | Field
    | Boolean
    | Integer
    | Text(length: nat)
    | Array(length: nat, element: AbiType)
    | Struct(fields: seq<AbiType>)

  /** Argument values; the members of a struct are listed in the order of its type. */
  datatype Value = Number(n: nat) | Bool(b: bool) | List(items: seq<Value>) | Record(members: seq<Value>)

  function SizeOfType(t: AbiType): nat
    decreases t, 0
  {
    match t
    case Field => 1
    case Boolean => 1
    case Integer => 1
    case Text(length) => length
    case Array(length, element) => length * SizeOfType(element)
    case Struct(fields) => SizeOfTypes(fields)
  }

  function SizeOfTypes(ts: seq<AbiType>): nat
    decreases ts, 1
  {
    if ts == [] then 0 else SizeOfTypes(ts[..|ts| - 1]) + SizeOfType(ts[|ts| - 1])
  }

  /** Scalars take one field, a string as many as it is long, an array its length times the size of an element, a struct
      the sum of the sizes of its members. */
  lemma {:induction false} SizesOfTypes(t: AbiType, n: nat, ts: seq<AbiType>, us: seq<AbiType>)
    ensures SizeOfType(Field) == SizeOfType(Boolean) == SizeOfType(Integer) == 1 && SizeOfType(Text(n)) == n
    ensures SizeOfType(Array(0, t)) == 0 && SizeOfType(Array(n + 1, t)) == SizeOfType(Array(n, t)) + SizeOfType(t)
    ensures SizeOfType(Struct([])) == 0 && SizeOfType(Struct([t])) == SizeOfType(t)
    ensures SizeOfType(Struct(ts + us)) == SizeOfType(Struct(ts)) + SizeOfType(Struct(us))
    decreases |us|
  {
    NextMultiple(n + 1, SizeOfType(t));
    assert [t][..0] == [] && SizeOfTypes([t]) == SizeOfTypes([]) + SizeOfType(t);
    if us == [] {
      assert ts + us == ts;
    } else {
      var init := us[..|us| - 1];
      SizesOfTypes(t, n, ts, init);
      assert (ts + us)[..|ts + us| - 1] == ts + init;
    }
  }

  /** The value has the shape of the type; strings have no encoding. */
  predicate WellTyped(t: AbiType, v: Value)
    decreases t, 0, 0
  {
    match t
    case Field => v.Number?
    case Boolean => v.Bool?
    case Integer => v.Number?
    case Text(_) => false
    case Array(length, element) => v.List? && |v.items| == length && WellTypedItems(element, v.items)
    case Struct(fields) => v.Record? && WellTypedAll(fields, v.members)
  }

  predicate WellTypedItems(t: AbiType, vs: seq<Value>)
    decreases t, 1, |vs|
  {
    vs == [] || (WellTypedItems(t, vs[..|vs| - 1]) && WellTyped(t, vs[|vs| - 1]))
  }

  predicate WellTypedAll(ts: seq<AbiType>, vs: seq<Value>)
    decreases ts, 1, 0
  {
    |ts| == |vs| && (ts == [] || (WellTypedAll(ts[..|ts| - 1], vs[..|vs| - 1]) && WellTyped(ts[|ts| - 1], vs[|vs| - 1])))
  }

  /** The value has the shape of the type, where any value will do for a string. */
  predicate Shaped(t: AbiType, v: Value)
    decreases t, 0
  {
    match t
    case Text(_) => true
    case Array(length, element) => v.List? && |v.items| == length && forall i :: 0 <= i < length ==> Shaped(element, v.items[i])
    case Struct(fields) => v.Record? && |v.members| == |fields| && forall i :: 0 <= i < |fields| ==> Shaped(fields[i], v.members[i])
    case _ => WellTyped(t, v)
  }

  /** What `encodeArgument` appends. */
  function Encode(t: AbiType, v: Value): seq<nat>
    requires WellTyped(t, v)
    decreases t, 0, 0
  {
    match t
    case Field => [v.n]
    case Boolean => [if v.b then 1 else 0]
    case Integer => [v.n]
    case Array(_, element) => EncodeItems(element, v.items)
    case Struct(fields) => EncodeAll(fields, v.members)
  }

  function EncodeItems(t: AbiType, vs: seq<Value>): seq<nat>
    requires WellTypedItems(t, vs)
    decreases t, 1, |vs|
  {
    if vs == [] then [] else EncodeItems(t, vs[..|vs| - 1]) + Encode(t, vs[|vs| - 1])
  }

  /** The encoding of an argument list, and of the members of a struct. */
  function EncodeAll(ts: seq<AbiType>, vs: seq<Value>): seq<nat>
    requires WellTypedAll(ts, vs)
    decreases ts, 1, 0
  {
    if ts == [] then [] else EncodeAll(ts[..|ts| - 1], vs[..|vs| - 1]) + Encode(ts[|ts| - 1], vs[|vs| - 1])
  }

  lemma NextMultiple(n: nat, size: nat)
    requires n > 0
    ensures (n - 1) * size + size == n * size
  {
  }

  /** A well-typed value takes exactly the size of its type. */
  lemma {:induction false} EncodeLength(t: AbiType, v: Value)
    requires WellTyped(t, v)
    ensures |Encode(t, v)| == SizeOfType(t)
    decreases t, 0, 0
  {
    match t
    case Array(_, element) => EncodeItemsLength(element, v.items);
    case Struct(fields) => EncodeAllLength(fields, v.members);
    case _ =>
  }

  lemma {:induction false} EncodeItemsLength(t: AbiType, vs: seq<Value>)
    requires WellTypedItems(t, vs)
    ensures |EncodeItems(t, vs)| == |vs| * SizeOfType(t)
    decreases t, 1, |vs|
  {
    if vs != [] {
      EncodeItemsLength(t, vs[..|vs| - 1]);
      EncodeLength(t, vs[|vs| - 1]);
      NextMultiple(|vs|, SizeOfType(t));
    }
  }

  lemma {:induction false} EncodeAllLength(ts: seq<AbiType>, vs: seq<Value>)
    requires WellTypedAll(ts, vs)
    ensures |EncodeAll(ts, vs)| == SizeOfTypes(ts)
    decreases ts, 1, 0
  {
    if ts != [] {
      EncodeAllLength(ts[..|ts| - 1], vs[..|vs| - 1]);
      EncodeLength(ts[|ts| - 1], vs[|vs| - 1]);
    }
  }

  /** Fields and integers are encoded as themselves, booleans as 1 and 0. */
  lemma EncodeScalar(n: nat, b: bool)
    ensures Encode(Field, Number(n)) == [n] && Encode(Integer, Number(n)) == [n]
    ensures Encode(Boolean, Bool(b)) == [if b then 1 else 0]
  {
  }

  /** The fields of `part` stand in `whole` from position `at` on. */
  ghost predicate Placed(whole: seq<nat>, at: nat, part: seq<nat>) {
    at + |part| <= |whole| && whole[at..at + |part|] == part
  }

  lemma PlacedIn(a: seq<nat>, b: seq<nat>)
    ensures Placed(a + b, |a|, b)
    ensures forall at: nat, part :: Placed(a, at, part) ==> Placed(a + b, at, part)
  {
  }

  /** Item i of an array, with as many fields as the size of the element type, stands at i times that size. */
  lemma {:induction false} ItemPlace(t: AbiType, vs: seq<Value>, i: nat)
    requires WellTypedItems(t, vs) && i < |vs|
    ensures WellTyped(t, vs[i]) && |Encode(t, vs[i])| == SizeOfType(t)
    ensures Placed(EncodeItems(t, vs), i * SizeOfType(t), Encode(t, vs[i]))
    decreases |vs|
  {
    hide Encode; hide WellTyped; hide SizeOfType; hide Placed;
    var n := |vs| - 1;
    PlacedIn(EncodeItems(t, vs[..n]), Encode(t, vs[n]));
    if i < n {
      ItemPlace(t, vs[..n], i);
    } else {
      EncodeItemsLength(t, vs[..n]);
      EncodeLength(t, vs[n]);
    }
  }

  /** Parameter or struct member i stands after the fields of those before it. */
  lemma {:induction false} MemberPlace(ts: seq<AbiType>, vs: seq<Value>, i: nat)
    requires WellTypedAll(ts, vs) && i < |ts|
    ensures WellTyped(ts[i], vs[i]) && |Encode(ts[i], vs[i])| == SizeOfType(ts[i])
    ensures Placed(EncodeAll(ts, vs), SizeOfTypes(ts[..i]), Encode(ts[i], vs[i]))
    decreases |ts|
  {
    hide Encode; hide WellTyped; hide SizeOfType; hide Placed;
    var n := |ts| - 1;
    PlacedIn(EncodeAll(ts[..n], vs[..n]), Encode(ts[n], vs[n]));
    if i < n {
      MemberPlace(ts[..n], vs[..n], i);
      assert ts[..n][..i] == ts[..i];
    } else {
      EncodeAllLength(ts[..n], vs[..n]);
      EncodeLength(ts[n], vs[n]);
    }
  }

  /** An array is encoded by its items, a struct by its members. */
  lemma EncodeParts(t: AbiType, v: Value)
    requires WellTyped(t, v)
    ensures t.Array? ==> WellTypedItems(t.element, v.items) && Encode(t, v) == EncodeItems(t.element, v.items)
    ensures t.Struct? ==> WellTypedAll(t.fields, v.members) && Encode(t, v) == EncodeAll(t.fields, v.members)
  {
  }

  lemma SameParts(a: seq<nat>, b: seq<nat>, c: seq<nat>, d: seq<nat>)
    requires a + b == c + d && |a| == |c|
    ensures a == c && b == d
  {
    assert a == (a + b)[..|a|] && c == (c + d)[..|c|];
    assert b == (a + b)[|a|..] && d == (c + d)[|c|..];
  }

  lemma SameLast(a: seq<Value>, b: seq<Value>)
    requires |a| == |b| > 0 && a[..|a| - 1] == b[..|b| - 1] && a[|a| - 1] == b[|b| - 1]
    ensures a == b
  {
    assert a == a[..|a| - 1] + [a[|a| - 1]];
    assert b == b[..|b| - 1] + [b[|b| - 1]];
  }

  /** Different values of one type have different encodings. */
  lemma {:induction false} EncodeInjective(t: AbiType, v: Value, w: Value)
    requires WellTyped(t, v) && WellTyped(t, w) && Encode(t, v) == Encode(t, w)
    ensures v == w
    decreases t, 0, 0
  {
    match t
    case Field => assert Encode(t, v)[0] == v.n && Encode(t, w)[0] == w.n;
    case Integer => assert Encode(t, v)[0] == v.n && Encode(t, w)[0] == w.n;
    case Boolean => assert Encode(t, v)[0] == (if v.b then 1 else 0) && Encode(t, w)[0] == (if w.b then 1 else 0);
    case Array(_, element) => EncodeItemsInjective(element, v.items, w.items);
    case Struct(fields) => EncodeAllInjective(fields, v.members, w.members);
  }

  lemma {:induction false} EncodeItemsInjective(t: AbiType, vs: seq<Value>, ws: seq<Value>)
    requires WellTypedItems(t, vs) && WellTypedItems(t, ws) && |vs| == |ws| && EncodeItems(t, vs) == EncodeItems(t, ws)
    ensures vs == ws
    decreases t, 1, |vs|
  {
    if vs != [] {
      var n := |vs| - 1;
      EncodeItemsLength(t, vs[..n]);
      EncodeItemsLength(t, ws[..n]);
      SameParts(EncodeItems(t, vs[..n]), Encode(t, vs[n]), EncodeItems(t, ws[..n]), Encode(t, ws[n]));
      EncodeItemsInjective(t, vs[..n], ws[..n]);
      EncodeInjective(t, vs[n], ws[n]);
      SameLast(vs, ws);
    }
  }

  lemma {:induction false} EncodeAllInjective(ts: seq<AbiType>, vs: seq<Value>, ws: seq<Value>)
    requires WellTypedAll(ts, vs) && WellTypedAll(ts, ws) && EncodeAll(ts, vs) == EncodeAll(ts, ws)
    ensures vs == ws
    decreases ts, 1, 0
  {
    if ts != [] {
      var n := |ts| - 1;
      EncodeAllLength(ts[..n], vs[..n]);
      EncodeAllLength(ts[..n], ws[..n]);
      SameParts(EncodeAll(ts[..n], vs[..n]), Encode(ts[n], vs[n]), EncodeAll(ts[..n], ws[..n]), Encode(ts[n], ws[n]));
      EncodeAllInjective(ts[..n], vs[..n], ws[..n]);
      EncodeInjective(ts[n], vs[n], ws[n]);
      SameLast(vs, ws);
    }
  }

  /** The witness takes the first fields of the encoded arguments, as many as the parameter types say: all of them. */
  lemma WitnessSliceKeepsAll(ts: seq<AbiType>, vs: seq<Value>)
    requires WellTypedAll(ts, vs)
    ensures |EncodeAll(ts, vs)| == SizeOfTypes(ts) && EncodeAll(ts, vs)[..SizeOfTypes(ts)] == EncodeAll(ts, vs)
  {
    EncodeAllLength(ts, vs);
  }

  class ArgumentEncoder {
    var flattened: seq<nat>

    constructor ()
      ensures flattened == []
    {
      flattened := [];
    }

    /** Throws exactly when it meets a string. */
    method EncodeArgument(t: AbiType, v: Value) returns (ok: bool)
      requires Shaped(t, v)
      modifies this
      ensures ok <==> WellTyped(t, v)
      ensures ok ==> flattened == old(flattened) + Encode(t, v)
      decreases t, 0
    {
      ok := true;
      match t {
        case Field => flattened := flattened + [v.n];
        case Boolean => flattened := flattened + [if v.b then 1 else 0];
        case Integer => flattened := flattened + [v.n];
        case Text(_) => ok := false;
        case Array(length, element) =>
          for i := 0 to length
            invariant WellTypedItems(element, v.items[..i]) && flattened == old(flattened) + EncodeItems(element, v.items[..i])
          {
            ItemsPrefix(element, v.items, i);
            ok := EncodeArgument(element, v.items[i]);
            if !ok { return; }
          }
          ok := true;
          assert v.items[..length] == v.items;
        case Struct(fields) => ok := EncodeList(fields, v.members);
      }
    }

    /** The loop over struct members, and `encode` over all parameters. */
    method EncodeList(ts: seq<AbiType>, vs: seq<Value>) returns (ok: bool)
      requires |ts| == |vs| && forall i :: 0 <= i < |ts| ==> Shaped(ts[i], vs[i])
      modifies this
      ensures ok <==> WellTypedAll(ts, vs)
      ensures ok ==> flattened == old(flattened) + EncodeAll(ts, vs)
      decreases ts, 1
    {
      for i := 0 to |ts|
        invariant WellTypedAll(ts[..i], vs[..i]) && flattened == old(flattened) + EncodeAll(ts[..i], vs[..i])
      {
        AllPrefix(ts, vs, i);
        ok := EncodeArgument(ts[i], vs[i]);
        if !ok { return; }
      }
      ok := true;
      assert ts[..|ts|] == ts && vs[..|vs|] == vs;
    }

    static lemma {:induction false} ItemsPrefix(t: AbiType, vs: seq<Value>, i: nat)
      requires i < |vs|
      ensures WellTypedItems(t, vs) ==> WellTyped(t, vs[i])
      ensures WellTypedItems(t, vs[..i + 1]) <==> WellTypedItems(t, vs[..i]) && WellTyped(t, vs[i])
      ensures WellTypedItems(t, vs[..i + 1]) ==> EncodeItems(t, vs[..i + 1]) == EncodeItems(t, vs[..i]) + Encode(t, vs[i])
      decreases |vs|
    {
      assert vs[..i + 1][..i] == vs[..i];
      if i < |vs| - 1 {
        ItemsPrefix(t, vs[..|vs| - 1], i);
      } else {
        assert vs[..i + 1] == vs;
      }
    }

    static lemma {:induction false} AllPrefix(ts: seq<AbiType>, vs: seq<Value>, i: nat)
      requires i < |ts| == |vs|
      ensures WellTypedAll(ts, vs) ==> WellTyped(ts[i], vs[i])
      ensures WellTypedAll(ts[..i + 1], vs[..i + 1]) <==> WellTypedAll(ts[..i], vs[..i]) && WellTyped(ts[i], vs[i])
      ensures WellTypedAll(ts[..i + 1], vs[..i + 1]) ==> EncodeAll(ts[..i + 1], vs[..i + 1]) == EncodeAll(ts[..i], vs[..i]) + Encode(ts[i], vs[i])
      decreases |ts|
    {
      assert ts[..i + 1][..i] == ts[..i] && vs[..i + 1][..i] == vs[..i];
      if i < |ts| - 1 {
        AllPrefix(ts[..|ts| - 1], vs[..|vs| - 1], i);
      } else {
        assert ts[..i + 1] == ts && vs[..i + 1] == vs;
      }
    }
  }

  // Return values.

  /** The decoder meets no type that it refuses: integers and strings, unless in an array without elements. */
  predicate Decodable(t: AbiType)
    decreases t, 0
  {
    match t
    case Field => true
    case Boolean => true
    case Array(length, element) => length == 0 || Decodable(element)
    case Struct(fields) => DecodableAll(fields)
    case _ => false
  }

  predicate DecodableAll(ts: seq<AbiType>)
    decreases ts, 1
  {
    ts == [] || (DecodableAll(ts[..|ts| - 1]) && Decodable(ts[|ts| - 1]))
  }

  /** A decoded value; arrays and structs are built but not returned, so they come out undefined. */
  datatype Decoded = Returned(value: Value) | Undefined

  class ReturnValuesDecoder {
    var flattened: seq<nat>

    constructor (flattened: seq<nat>)
      ensures this.flattened == flattened
    {
      this.flattened := flattened;
    }

    /** Succeeds exactly when the type is supported and there are enough fields, and then consumes as many as the
        size of the type. */
    method DecodeReturn(t: AbiType) returns (ok: bool, value: Decoded)
      modifies this
      ensures ok <==> Decodable(t) && SizeOfType(t) <= |old(flattened)|
      ensures ok ==> flattened == old(flattened)[SizeOfType(t)..]
      ensures ok && t.Field? ==> value == Returned(Number(old(flattened)[0]))
      ensures ok && t.Boolean? ==> value == Returned(Bool(old(flattened)[0] != 0))
      ensures ok && (t.Array? || t.Struct?) ==> value == Undefined
      decreases t, 0
    {
      value := Undefined;
      match t {
        case Field =>
          if |flattened| == 0 { return false, Undefined; }
          value := Returned(Number(flattened[0]));
          flattened := flattened[1..];
          ok := true;
        case Boolean =>
          if |flattened| == 0 { return false, Undefined; }
          value := Returned(Bool(flattened[0] != 0));
          flattened := flattened[1..];
          ok := true;
        case Array(length, element) =>
          ghost var size := SizeOfType(element);
          var items: seq<Decoded> := [];
          for i := 0 to length
            invariant (i > 0 ==> Decodable(element)) && i * size <= |old(flattened)| && flattened == old(flattened)[i * size..]
          {
            NextMultiple(i + 1, size);
            MultipleGrows(i + 1, length, size);
            var item;
            ok, item := DecodeReturn(element);
            if !ok { return false, Undefined; }
            items := items + [item];
          }
          ok := true;
        case Struct(fields) =>
          var members: seq<Decoded> := [];
          for i := 0 to |fields|
            invariant DecodableAll(fields[..i]) && SizeOfTypes(fields[..i]) <= |old(flattened)| && flattened == old(flattened)[SizeOfTypes(fields[..i])..]
          {
            FieldsPrefix(fields, i);
            var member;
            ok, member := DecodeReturn(fields[i]);
            if !ok { return false, Undefined; }
            members := members + [member];
          }
          assert fields[..|fields|] == fields;
          ok := true;
        case _ => ok := false;
      }
    }

    static lemma MultipleGrows(i: nat, n: nat, size: nat)
      requires i <= n
      ensures i * size <= n * size
    {
      assert n * size == i * size + (n - i) * size;
    }

    static lemma {:induction false} FieldsPrefix(ts: seq<AbiType>, i: nat)
      requires i < |ts|
      ensures DecodableAll(ts) ==> Decodable(ts[i])
      ensures DecodableAll(ts[..i + 1]) <==> DecodableAll(ts[..i]) && Decodable(ts[i])
      ensures SizeOfTypes(ts[..i + 1]) == SizeOfTypes(ts[..i]) + SizeOfType(ts[i])
      ensures SizeOfTypes(ts[..i + 1]) <= SizeOfTypes(ts)
      decreases |ts|
    {
      assert ts[..i + 1][..i] == ts[..i];
      if i < |ts| - 1 {
        FieldsPrefix(ts[..|ts| - 1], i);
        assert ts[..|ts| - 1][..i + 1] == ts[..i + 1] && ts[..|ts| - 1][..i] == ts[..i];
      } else {
        assert ts[..i + 1] == ts;
      }
    }
  }

  lemma {:induction false} WellTypedShaped(t: AbiType, v: Value)
    requires WellTyped(t, v)
    ensures Shaped(t, v)
    decreases t
  {
    match t
    case Array(length, element) =>
      forall i | 0 <= i < length
        ensures Shaped(element, v.items[i])
      {
        ArgumentEncoder.ItemsPrefix(element, v.items, i);
        WellTypedShaped(element, v.items[i]);
      }
    case Struct(fields) =>
      forall i | 0 <= i < |fields|
        ensures Shaped(fields[i], v.members[i])
      {
        ArgumentEncoder.AllPrefix(fields, v.members, i);
        WellTypedShaped(fields[i], v.members[i]);
      }
    case _ =>
  }

  /** A single field or boolean that was encoded is decoded to itself, whatever follows it. */
  method DecodeEncoded(t: AbiType, v: Value, rest: seq<nat>) returns (value: Decoded, left: seq<nat>)
    requires Decodable(t) && WellTyped(t, v)
    ensures left == rest
    ensures value == if t.Field? || t.Boolean? then Returned(v) else Undefined
  {
    EncodeLength(t, v);
    var encoder := new ArgumentEncoder();
    WellTypedShaped(t, v);
    var ok := encoder.EncodeArgument(t, v);
    var decoder := new ReturnValuesDecoder(encoder.flattened + rest);
    ok, value := decoder.DecodeReturn(t);
    left := decoder.flattened;
  }
}

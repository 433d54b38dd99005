/**
  `IdentityPlaceholderResolverStrategy`: the stream protocol (`write`, `read`)
  and the chunk protocol (`marshal`, `unmarshal`) over the identity table.
  A stream is the sequence of data bytes written to or still to be read from
  it; `writeInt`/`readInt` use the same four-byte big-endian layout as the
  key codec.
 */
module PlaceholderStrategy {
  import opened Wrappers
  import opened JavaInt
  import opened IntCodec
  import opened IdentityTable

  /** Why `read` fails: `readInt` hit the end of the stream (EOFException). */
  datatype ReadError = EndOfStream

  /** `write(os, object)`: the object's key, allocated if first seen, appended
      to the stream as four bytes. */
  function Write<O(==)>(t: Table<O>, out: seq<Int8>, o: O): (r: (Table<O>, seq<Int8>))
    ensures |r.1| == |out| + 4 && r.1[..|out|] == out
    ensures o in r.0.objects
  {
    var (t1, key) := AssignOrGet(t, o);
    (t1, out + IntToByteArray(key))
  }

  /** `read(os)`: four bytes decoded to a key, then `ids.get(key)`. */
  function Read<O(==)>(t: Table<O>, input: seq<Int8>): (r: Result<(Option<O>, seq<Int8>), ReadError>)
    ensures r.Failure? <==> |input| < 4
    ensures r.Success? ==> r.value.1 == input[4..]
  {
    if |input| < 4 then
      Failure(EndOfStream)
    else
      Success((Lookup(t, ByteArrayToInt(input).value), input[4..]))
  }

  /** `marshal(context, os, object)`: the same key allocation as `write`, the
      key returned as a 4-byte array; `context` and `os` are not used. */
  function Marshal<O(==), C, S>(t: Table<O>, context: C, os: S, o: O): (r: (Table<O>, seq<Int8>))
    ensures |r.1| == 4
    ensures o in r.0.objects && ByteArrayToInt(r.1) == Success(r.0.objects[o])
  {
    var (t1, key) := AssignOrGet(t, o);
    DecodeEncode(key);
    (t1, IntToByteArray(key))
  }

  /** `unmarshal(dataType, context, source, object, classloader)`:
      `ids.get(byteArrayToInt(object))`; only the bytes and the table matter. */
  function Unmarshal<O(==), C, S, L>(t: Table<O>, dataType: string, context: C, source: S,
                                     bytes: seq<Int8>, classloader: L): (r: Result<Option<O>, CodecError>)
    ensures r.Failure? <==> |bytes| < 4
  {
    match ByteArrayToInt(bytes)
    case Failure(e) => Failure(e)
    case Success(key) => Success(Lookup(t, key))
  }

  /** `write` and `marshal` allocate identically and produce the same bytes. */
  lemma WriteIsMarshal<O, C, S>(t: Table<O>, out: seq<Int8>, context: C, os: S, o: O)
    ensures Write(t, out, o) == (Marshal(t, context, os, o).0, out + Marshal(t, context, os, o).1)
  {
  }

  /** The chunk round trip: on a table satisfying the invariant,
      `unmarshal(marshal(o))` is `o` itself. */
  lemma MarshalUnmarshal<O, C, S, L>(t: Table<O>, context: C, os: S, o: O,
                                         dataType: string, context': C, source: S, classloader: L)
    requires Valid(t)
    requires o in t.objects || |t.ids| < TWO_31
    ensures var (t1, bytes) := Marshal(t, context, os, o);
            Unmarshal(t1, dataType, context', source, bytes, classloader) == Success(Some(o))
  {
    AssignPreservesValid(t, o);
  }

  /** `marshal` depends only on the table and the object. */
  lemma MarshalIgnoresArguments<O, C, S>(t: Table<O>, o: O, c1: C, s1: S, c2: C, s2: S)
    ensures Marshal(t, c1, s1, o) == Marshal(t, c2, s2, o)
  {
  }

  /** `unmarshal` depends only on the table and the bytes. */
  lemma UnmarshalIgnoresArguments<O, C, S, L>(t: Table<O>, bytes: seq<Int8>,
                                                  d1: string, c1: C, s1: S, l1: L,
                                                  d2: string, c2: C, s2: S, l2: L)
    ensures Unmarshal(t, d1, c1, s1, bytes, l1) == Unmarshal(t, d2, c2, s2, bytes, l2)
  {
  }

  /** A key that is not in `ids` reads back as `null`, with no error; an array
      shorter than four bytes is an index error; bytes past the fourth are
      ignored. */
  lemma UnmarshalOutcomes<O, C, S, L>(t: Table<O>, dataType: string, context: C, source: S,
                                          bytes: seq<Int8>, classloader: L)
    ensures |bytes| < 4 ==> Unmarshal(t, dataType, context, source, bytes, classloader)
                              == Failure(IndexOutOfBounds(|bytes|))
    ensures |bytes| >= 4 && ByteArrayToInt(bytes).value !in t.ids ==>
              Unmarshal(t, dataType, context, source, bytes, classloader) == Success(None)
    ensures |bytes| >= 4 ==> Unmarshal(t, dataType, context, source, bytes, classloader)
                               == Unmarshal(t, dataType, context, source, bytes[..4], classloader)
  {
    if |bytes| >= 4 {
      assert bytes == bytes[..4] + bytes[4..];
      DecodeIgnoresTrailing(bytes[..4], bytes[4..]);
    }
  }

  /** `unmarshal` of an encoded key is `ids.get` of that key on any table,
      including one restored through `setIds` or the map-taking constructor. */
  lemma UnmarshalEncoded<O, C, S, L>(t: Table<O>, key: Int32, dataType: string, context: C,
                                         source: S, classloader: L)
    ensures Unmarshal(t, dataType, context, source, IntToByteArray(key), classloader)
              == Success(Lookup(t, key))
  {
    DecodeEncode(key);
  }

  /** A key that is not in `ids`, written to a stream, reads back as `null`. */
  lemma ReadMissingKey<O>(t: Table<O>, key: Int32, rest: seq<Int8>)
    requires key !in t.ids
    ensures Read(t, IntToByteArray(key) + rest) == Success((None, rest))
  {
    DecodeIgnoresTrailing(IntToByteArray(key), rest);
    DecodeEncode(key);
  }

  /** The concatenated 4-byte encodings of a run of keys. */
  function EncodeKeys(keys: seq<Int32>): (r: seq<Int8>)
    ensures |r| == 4 * |keys|
  {
    if keys == [] then [] else IntToByteArray(keys[0]) + EncodeKeys(keys[1..])
  }

  /** `write` applied to each object in turn. */
  function WriteAll<O(==)>(t: Table<O>, out: seq<Int8>, os: seq<O>): (r: (Table<O>, seq<Int8>))
    decreases |os|
  {
    if os == [] then
      (t, out)
    else
      var (t1, out1) := Write(t, out, os[0]);
      WriteAll(t1, out1, os[1..])
  }

  /** `read` applied until the stream is exhausted. */
  function ReadAll<O(==)>(t: Table<O>, input: seq<Int8>): (r: Result<seq<Option<O>>, ReadError>)
    decreases |input|
  {
    if input == [] then
      Success([])
    else
      match Read(t, input)
      case Failure(e) => Failure(e)
      case Success((o, rest)) =>
        match ReadAll(t, rest)
        case Failure(e) => Failure(e)
        case Success(os) => Success([o] + os)
  }

  /** Writing a run of objects leaves the table that presenting them in turn
      builds. */
  lemma {:induction false} WriteAllTable<O>(t: Table<O>, out: seq<Int8>, os: seq<O>)
    ensures WriteAll(t, out, os).0 == AssignAll(t, os).0
    decreases |os|
  {
    if os != [] {
      var step := AssignOrGet(t, os[0]);
      var bytes := IntToByteArray(step.1);
      assert WriteAll(t, out, os) == WriteAll(step.0, out + bytes, os[1..]);
      WriteAllTable(step.0, out + bytes, os[1..]);
    }
  }

  /** Writing a run of objects appends exactly the encodings of the keys that
      the table assigns them. */
  lemma {:induction false} WriteAllEncodesKeys<O>(t: Table<O>, out: seq<Int8>, os: seq<O>)
    ensures WriteAll(t, out, os).1 == out + EncodeKeys(AssignAll(t, os).1)
    decreases |os|
  {
    if os == [] {
      assert out + EncodeKeys([]) == out;
    } else {
      var step := AssignOrGet(t, os[0]);
      var bytes := IntToByteArray(step.1);
      assert WriteAll(t, out, os) == WriteAll(step.0, out + bytes, os[1..]);
      WriteAllEncodesKeys(step.0, out + bytes, os[1..]);
      var rest := AssignAll(step.0, os[1..]);
      assert AssignAll(t, os).1 == [step.1] + rest.1;
      EncodeKeysCons(step.1, rest.1);
      assert (out + bytes) + EncodeKeys(rest.1) == out + (bytes + EncodeKeys(rest.1));
    }
  }

  lemma EncodeKeysCons(key: Int32, keys: seq<Int32>)
    ensures EncodeKeys([key] + keys) == IntToByteArray(key) + EncodeKeys(keys)
  {
    assert ([key] + keys)[1..] == keys;
  }

  /** Reading back a run of encoded keys looks each of them up in turn. */
  lemma {:induction false} ReadAllDecodesKeys<O>(t: Table<O>, keys: seq<Int32>)
    ensures ReadAll(t, EncodeKeys(keys)).Success?
    ensures |ReadAll(t, EncodeKeys(keys)).value| == |keys|
    ensures forall i :: 0 <= i < |keys| ==> ReadAll(t, EncodeKeys(keys)).value[i] == Lookup(t, keys[i])
    decreases |keys|
  {
    if keys != [] {
      var input := EncodeKeys(keys);
      var rest := EncodeKeys(keys[1..]);
      DecodeIgnoresTrailing(IntToByteArray(keys[0]), rest);
      DecodeEncode(keys[0]);
      assert input[4..] == rest;
      ReadAllDecodesKeys(t, keys[1..]);
      var tail := ReadAll(t, rest).value;
      assert ReadAll(t, input) == Success([Lookup(t, keys[0])] + tail);
    }
  }

  /** The stream round trip: writing a run of objects and then reading the
      stream back, in the same order, against the table the writes left
      yields the very same objects, repeats included. */
  lemma WriteThenRead<O>(t: Table<O>, os: seq<O>)
    requires Valid(t)
    requires |t.ids| + |os| <= TWO_31
    ensures var (t', bytes) := WriteAll(t, [], os);
            && ReadAll(t', bytes).Success?
            && |ReadAll(t', bytes).value| == |os|
            && forall i :: 0 <= i < |os| ==> ReadAll(t', bytes).value[i] == Some(os[i])
  {
    WriteAllTable(t, [], os);
    WriteAllEncodesKeys(t, [], os);
    AssignAllValid(t, os);
    var (t', keys) := AssignAll(t, os);
    assert [] + EncodeKeys(keys) == EncodeKeys(keys);
    ReadAllDecodesKeys(t', keys);
  }

  /** The table that has seen `a` and then `b`. */
  function TwoObjects<O(==)>(a: O, b: O): (t: Table<O>)
  {
    Table(map[0 := a, 1 := b], map[a := 0, b := 1])
  }

  /** Presenting `a`, `b`, `a` to the constructor's empty tables. */
  lemma SharedReferenceKeys<O>(a: O, b: O)
    requires a != b
    ensures AssignAll(Empty(), [a, b, a]).0 == TwoObjects(a, b)
    ensures AssignAll(Empty(), [a, b, a]).1 == [0, 1, 0]
  {
    var t0: Table<O> := Empty();
    var t1 := Table(map[0 := a], map[a := 0]);
    var t2 := TwoObjects(a, b);
    assert AssignOrGet(t0, a) == (t1, 0);
    assert AssignOrGet(t1, b) == (t2, 1);
    assert AssignOrGet(t2, a) == (t2, 0);
    assert [a, b, a][1..] == [b, a];
    assert [b, a][1..] == [a];
    assert [a][1..] == [];
    assert AssignAll(t2, [a]).0 == t2 && AssignAll(t2, [a]).1 == [0];
    assert AssignAll(t1, [b, a]).0 == t2 && AssignAll(t1, [b, a]).1 == [1, 0];
  }

  /** Rehydrating with {0: a, 1: b} rebuilds that same table. */
  lemma SharedReferenceRehydrated<O>(a: O, b: O)
    requires a != b
    ensures Enumerates([0, 1], map[0 := a, 1 := b].Keys)
    ensures WithIds(map[0 := a, 1 := b], [0, 1]) == TwoObjects(a, b)
  {
    var r := WithIds(map[0 := a, 1 := b], [0, 1]);
    assert r.objects.Keys == {a, b};
    assert r.objects[a] == 0 && r.objects[b] == 1;
  }

  /** The stream bytes of the keys 0, 1, 0. */
  lemma SharedReferenceBytes()
    ensures EncodeKeys([0, 1, 0]) == [0, 0, 0, 0, 0, 0, 0, 1, 0, 0, 0, 0]
  {
    BoundaryEncodings();
    assert [0 as Int32, 1, 0][1..] == [1, 0];
    assert [1 as Int32, 0][1..] == [0];
    assert [0 as Int32][1..] == [];
    assert EncodeKeys([0]) == [0, 0, 0, 0];
    assert EncodeKeys([1, 0]) == [0, 0, 0, 1, 0, 0, 0, 0];
  }

  /** Reading the keys 0, 1, 0 against the table {0: a, 1: b}. */
  lemma SharedReferenceReads<O>(a: O, b: O, keys: seq<Int32>)
    requires keys == [0, 1, 0]
    ensures ReadAll(TwoObjects(a, b), EncodeKeys(keys)) == Success([Some(a), Some(b), Some(a)])
  {
    var t2 := TwoObjects(a, b);
    ReadAllDecodesKeys(t2, keys);
    var rs := ReadAll(t2, EncodeKeys(keys)).value;
    assert rs[0] == Some(a) && rs[1] == Some(b) && rs[2] == Some(a);
    assert rs == [Some(a), Some(b), Some(a)];
  }

  /** Objects `a`, `b`, `a` written to a fresh strategy produce the keys
      0, 1, 0; a strategy rehydrated with {0: a, 1: b} is exactly the table the
      writes built, and reads the written stream back as `a`, `b`, `a`. */
  lemma SharedReferenceScenario<O>(a: O, b: O)
    requires a != b
    ensures AssignAll(Empty(), [a, b, a]).1 == [0, 1, 0]
    ensures WriteAll(Empty(), [], [a, b, a]).1 == [0, 0, 0, 0, 0, 0, 0, 1, 0, 0, 0, 0]
    ensures Enumerates([0, 1], map[0 := a, 1 := b].Keys)
    ensures WriteAll(Empty(), [], [a, b, a]).0 == WithIds(map[0 := a, 1 := b], [0, 1])
    ensures ReadAll(WithIds(map[0 := a, 1 := b], [0, 1]), WriteAll(Empty(), [], [a, b, a]).1)
              == Success([Some(a), Some(b), Some(a)])
  {
    SharedReferenceKeys(a, b);
    SharedReferenceRehydrated(a, b);
    SharedReferenceBytes();
    WriteAllTable(Empty<O>(), [], [a, b, a]);
    WriteAllEncodesKeys(Empty<O>(), [], [a, b, a]);
    var keys := AssignAll(Empty<O>(), [a, b, a]).1;
    assert [] + EncodeKeys(keys) == EncodeKeys(keys);
    SharedReferenceReads(a, b, keys);
  }

  /** The setIds hazard: a strategy rehydrated with the single entry {1: a}
      allocates key `ids.size()` = 1 for a new object `b`, overwriting `a`;
      marshalling `a` afterwards still yields key 1, which unmarshals to `b`. */
  lemma SparseRehydrationLosesObject<O>(a: O, b: O)
    requires a != b
    ensures Enumerates([1], map[1 := a].Keys)
    ensures var (t1, bytesB) := Marshal(WithIds(map[1 := a], [1]), (), (), b);
            && bytesB == IntToByteArray(1)
            && Marshal(t1, (), (), a).1 == IntToByteArray(1)
            && Unmarshal(t1, "", (), (), Marshal(t1, (), (), a).1, ()) == Success(Some(b))
  {
    var t := WithIds(map[1 := a], [1]);
    assert t.objects == map[a := 1];
    assert |t.ids| == 1 && Size(t.ids) == 1;
    var t1 := Table(map[1 := b], map[a := 1, b := 1]);
    assert b !in t.objects;
    assert t.ids[1 := b] == map[1 := b];
    assert t.objects[b := 1] == map[a := 1, b := 1];
    assert AssignOrGet(t, b).1 == 1;
    assert AssignOrGet(t, b).0 == t1;
    assert AssignOrGet(t1, a) == (t1, 1);
    DecodeEncode(1);
    assert Unmarshal(t1, "", (), (), IntToByteArray(1), ()) == Success(Some(b));
  }
}

/**
 * Binary framing in the format of java.io.DataOutputStream / DataInputStream,
 * which both wire protocols and both checkpoint files use: one-byte tags,
 * big-endian two's-complement int16, int32 and int64 fields, booleans as one
 * byte, `writeUTF` strings (an unsigned 2-byte length, then the bytes) and
 * count-prefixed arrays.
 *
 * A writer is a function from a value to the bytes it puts on the stream; a
 * reader takes the bytes still unread and answers the value together with the
 * bytes after it, or None when the stream ends first (Java's EOFException).
 */
module Wire {

  /** An octet on the wire; a Java `byte` is represented by its bit pattern. */
  type byte = x: int | 0 <= x < 0x100

  type int16 = x: int | -0x8000 <= x < 0x8000
  type int32 = x: int | -0x8000_0000 <= x < 0x8000_0000
  type int64 = x: int | -0x8000_0000_0000_0000 <= x < 0x8000_0000_0000_0000

  const INT32_MAX: int := 0x7FFF_FFFF

  /** `Collection.size()`: the number of elements, or Integer.MAX_VALUE when there are more. */
  function SizeOf(n: nat): int32
  {
    if n > INT32_MAX then INT32_MAX else n
  }

  /** A string as the bytes `writeUTF` puts behind its 2-byte length. */
  type Utf = s: seq<byte> | |s| <= 0xFFFF

  datatype Option<T> = None | Some(value: T)

  /** What a reader answers: the value read and the unread rest of the stream. */
  type Read<T> = Option<(T, seq<byte>)>

  /** Prepends `x` to the list a reader of several values answered. */
  function Cons<T>(x: T, r: Read<seq<T>>): Read<seq<T>>
  {
    match r
    case None => None
    case Some((xs, rest)) => Some(([x] + xs, rest))
  }

  /** Prepends the values a loop has already read to what the rest of the loop reads. */
  function Prepend<T>(acc: seq<T>, r: Read<seq<T>>): Read<seq<T>>
  {
    match r
    case None => None
    case Some((xs, rest)) => Some((acc + xs, rest))
  }

  lemma PrependNothing<T>(r: Read<seq<T>>)
    ensures Prepend([], r) == r
  {
    match r
    case None =>
    case Some((xs, rest)) => assert [] + xs == xs;
  }

  lemma PrependCons<T>(acc: seq<T>, x: T, r: Read<seq<T>>)
    ensures Prepend(acc, Cons(x, r)) == Prepend(acc + [x], r)
  {
    match r
    case None =>
    case Some((xs, rest)) => assert acc + ([x] + xs) == (acc + [x]) + xs;
  }

  // ---------------------------------------------------------------------------
  // Unsigned big-endian numbers

  function Pow256(n: nat): (r: nat)
    ensures r > 0
  {
    if n == 0 then 1 else 256 * Pow256(n - 1)
  }

  lemma Pow256Widths()
    ensures Pow256(1) == 0x100
    ensures Pow256(2) == 0x1_0000
    ensures Pow256(4) == 0x1_0000_0000
    ensures Pow256(8) == 0x1_0000_0000_0000_0000
  {
    assert Pow256(1) == 256 * Pow256(0);
    assert Pow256(2) == 256 * Pow256(1);
    assert Pow256(3) == 256 * Pow256(2);
    assert Pow256(4) == 256 * Pow256(3);
    assert Pow256(5) == 256 * Pow256(4);
    assert Pow256(6) == 256 * Pow256(5);
    assert Pow256(7) == 256 * Pow256(6);
    assert Pow256(8) == 256 * Pow256(7);
  }

  /** The n-byte big-endian representation of u, most significant byte first. */
  function BigEndian(u: nat, n: nat): (s: seq<byte>)
    requires u < Pow256(n)
    ensures |s| == n
  {
    if n == 0 then []
    else
      assert u / 256 < Pow256(n - 1) by { DivBound(u, Pow256(n - 1)); }
      BigEndian(u / 256, n - 1) + [u % 256]
  }

  lemma DivBound(u: nat, p: nat)
    requires u < 256 * p
    ensures u / 256 < p
  {
  }

  /** The number whose big-endian representation is s. */
  function ValueOf(s: seq<byte>): nat
  {
    if s == [] then 0 else ValueOf(s[..|s| - 1]) * 256 + s[|s| - 1]
  }

  lemma {:induction false} ValueOfBigEndian(u: nat, n: nat)
    requires u < Pow256(n)
    ensures ValueOf(BigEndian(u, n)) == u
  {
    if n > 0 {
      DivBound(u, Pow256(n - 1));
      var s := BigEndian(u, n);
      assert s[..|s| - 1] == BigEndian(u / 256, n - 1);
      ValueOfBigEndian(u / 256, n - 1);
    }
  }

  lemma {:induction false} ValueOfBound(s: seq<byte>)
    ensures ValueOf(s) < Pow256(|s|)
  {
    if s != [] {
      ValueOfBound(s[..|s| - 1]);
    }
  }

  // ---------------------------------------------------------------------------
  // Signed fixed-width fields (writeByte, writeShort, writeInt, writeLong)

  /** The low 8n bits of v, big-endian: what DataOutput writes for an n-byte field. */
  function WriteSigned(v: int, n: nat): (s: seq<byte>)
    ensures |s| == n
  {
    BigEndian(v % Pow256(n), n)
  }

  /** The two's-complement value of an n-byte pattern. */
  function ToSigned(u: nat, n: nat): int
  {
    if u < Pow256(n) / 2 then u else u - Pow256(n)
  }

  function ReadUnsigned(s: seq<byte>, n: nat): Read<nat>
  {
    if |s| < n then None else Some((ValueOf(s[..n]), s[n..]))
  }

  function ReadSigned(s: seq<byte>, n: nat): Read<int>
  {
    match ReadUnsigned(s, n)
    case None => None
    case Some((u, rest)) => Some((ToSigned(u, n), rest))
  }

  lemma UnsignedRoundTrip(u: nat, n: nat, rest: seq<byte>)
    requires u < Pow256(n)
    ensures ReadUnsigned(BigEndian(u, n) + rest, n) == Some((u, rest))
  {
    var s := BigEndian(u, n) + rest;
    assert s[..n] == BigEndian(u, n);
    assert s[n..] == rest;
    ValueOfBigEndian(u, n);
  }

  lemma ModOfNegative(v: int, m: int)
    requires m > 0 && -m <= v < 0
    ensures v % m == v + m
  {
    assert (v + m) - m == v;
  }

  /** Half the range of an n-byte field: the signed values are [-Half(n), Half(n)). */
  function Half(n: nat): int
  {
    Pow256(n) / 2
  }

  /** Reading back the low 8n bits of v as a signed field. */
  lemma SignedRoundTrip(v: int, n: nat, rest: seq<byte>)
    ensures ReadSigned(WriteSigned(v, n) + rest, n) == Some((ToSigned(v % Pow256(n), n), rest))
  {
    UnsignedRoundTrip(v % Pow256(n), n, rest);
  }

  lemma ModOfSmall(v: int, m: int)
    requires 0 <= v < m
    ensures v % m == v
  {
  }

  /** The truncation is the identity on the values that fit in 8n bits. */
  lemma SignedOfFitting(v: int, n: nat)
    requires -Half(n) <= v < Half(n)
    ensures ToSigned(v % Pow256(n), n) == v
  {
    var m := Pow256(n);
    if v >= 0 {
      ModOfSmall(v, m);
      assert v < m / 2;
    } else {
      ModOfNegative(v, m);
      assert v + m >= m / 2;
    }
  }

  // The concrete fields.

  function WriteByte(v: int): seq<byte> { WriteSigned(v, 1) }
  function ReadByte(s: seq<byte>): Read<int> { ReadSigned(s, 1) }

  function WriteShort(v: int): seq<byte> { WriteSigned(v, 2) }
  function ReadShort(s: seq<byte>): Read<int16>
  {
    match ReadSigned(s, 2)
    case None => None
    case Some((v, rest)) =>
      Pow256Widths();
      ValueOfBound(s[..2]);
      var w: int16 := v;
      Some((w, rest))
  }
  function ReadUnsignedShort(s: seq<byte>): Read<nat> { ReadUnsigned(s, 2) }

  function WriteInt(v: int32): seq<byte> { WriteSigned(v, 4) }
  function ReadInt(s: seq<byte>): (r: Read<int32>)
  {
    match ReadSigned(s, 4)
    case None => None
    case Some((v, rest)) =>
      Pow256Widths();
      ValueOfBound(s[..4]);
      var w: int32 := v;
      Some((w, rest))
  }

  function WriteLong(v: int64): seq<byte> { WriteSigned(v, 8) }
  function ReadLong(s: seq<byte>): (r: Read<int64>)
  {
    match ReadSigned(s, 8)
    case None => None
    case Some((v, rest)) =>
      Pow256Widths();
      ValueOfBound(s[..8]);
      var w: int64 := v;
      Some((w, rest))
  }

  function WriteBoolean(b: bool): seq<byte> { [if b then 1 else 0] }
  function ReadBoolean(s: seq<byte>): Read<bool>
  {
    if |s| == 0 then None else Some((s[0] != 0, s[1..]))
  }

  function WriteUTF(str: Utf): seq<byte> { WriteShort(|str|) + str }

  /** readUTF: an unsigned 2-byte length, then that many bytes. */
  function ReadUTF(s: seq<byte>): Read<Utf>
  {
    match ReadUnsignedShort(s)
    case None => None
    case Some((len, rest)) =>
      if |rest| < len then None
      else
        Pow256Widths();
        ValueOfBound(s[..2]);
        var str: Utf := rest[..len];
        Some((str, rest[len..]))
  }

  lemma ByteRoundTrip(v: int, rest: seq<byte>)
    requires -0x80 <= v < 0x80
    ensures ReadByte(WriteByte(v) + rest) == Some((v, rest))
  {
    Pow256Widths();
    SignedRoundTrip(v, 1, rest);
    SignedOfFitting(v, 1);
  }

  /** readShort after writeShort(v) gives v's low 16 bits as a signed value. */
  lemma ShortRoundTrip(v: int, rest: seq<byte>)
    ensures ReadShort(WriteShort(v) + rest)
            == Some((if v % 0x1_0000 < 0x8000 then v % 0x1_0000 else v % 0x1_0000 - 0x1_0000, rest))
    ensures ReadShort(WriteShort(v) + rest).Some?
  {
    Pow256Widths();
    SignedRoundTrip(v, 2, rest);
  }

  lemma IntRoundTrip(v: int32, rest: seq<byte>)
    ensures ReadInt(WriteInt(v) + rest) == Some((v, rest))
  {
    Pow256Widths();
    SignedRoundTrip(v, 4, rest);
    SignedOfFitting(v, 4);
  }

  lemma LongRoundTrip(v: int64, rest: seq<byte>)
    ensures ReadLong(WriteLong(v) + rest) == Some((v, rest))
  {
    Pow256Widths();
    SignedRoundTrip(v, 8, rest);
    SignedOfFitting(v, 8);
  }

  lemma BooleanRoundTrip(b: bool, rest: seq<byte>)
    ensures ReadBoolean(WriteBoolean(b) + rest) == Some((b, rest))
  {
    assert (WriteBoolean(b) + rest)[1..] == rest;
  }

  lemma UTFRoundTrip(str: Utf, rest: seq<byte>)
    ensures ReadUTF(WriteUTF(str) + rest) == Some((str, rest))
  {
    Pow256Widths();
    var s := WriteUTF(str) + rest;
    assert |str| % Pow256(2) == |str|;
    assert s == BigEndian(|str|, 2) + (str + rest);
    UnsignedRoundTrip(|str|, 2, str + rest);
    assert (str + rest)[..|str|] == str;
    assert (str + rest)[|str|..] == rest;
  }

  // ---------------------------------------------------------------------------
  // Count-prefixed arrays: the elements one after another

  function WriteAll<T>(xs: seq<T>, write: T -> seq<byte>): seq<byte>
  {
    if xs == [] then [] else write(xs[0]) + WriteAll(xs[1..], write)
  }

  /** Reads n values one after another, as the `for (i < count)` loops do. */
  function ReadN<T>(s: seq<byte>, n: nat, read: seq<byte> -> Read<T>): Read<seq<T>>
    decreases n
  {
    if n == 0 then Some(([], s))
    else
      match read(s)
      case None => None
      case Some((x, rest)) => Cons(x, ReadN(rest, n - 1, read))
  }

  lemma {:induction false} WriteAllAppend<T>(xs: seq<T>, ys: seq<T>, write: T -> seq<byte>)
    ensures WriteAll(xs + ys, write) == WriteAll(xs, write) + WriteAll(ys, write)
  {
    if xs == [] {
      assert xs + ys == ys;
    } else {
      var zs := xs + ys;
      assert zs != [] && zs[0] == xs[0];
      assert zs[1..] == xs[1..] + ys;
      WriteAllAppend(xs[1..], ys, write);
      calc {
        WriteAll(zs, write);
        write(xs[0]) + WriteAll(xs[1..] + ys, write);
        write(xs[0]) + (WriteAll(xs[1..], write) + WriteAll(ys, write));
        (write(xs[0]) + WriteAll(xs[1..], write)) + WriteAll(ys, write);
      }
    }
  }

  lemma WriteAllSnoc<T>(xs: seq<T>, x: T, write: T -> seq<byte>)
    ensures WriteAll(xs + [x], write) == WriteAll(xs, write) + write(x)
  {
    WriteAllAppend(xs, [x], write);
    assert WriteAll([x], write) == write(x) + WriteAll([x][1..], write);
    assert [x][1..] == [];
  }

  lemma {:induction false} WriteAllLength<T>(xs: seq<T>, write: T -> seq<byte>, k: nat)
    requires forall x :: |write(x)| == k
    ensures |WriteAll(xs, write)| == k * |xs|
  {
    if xs != [] {
      WriteAllLength(xs[1..], write, k);
    }
  }

  /** Reading back as many values as were written gives them back in order. */
  lemma {:induction false} ReadNWriteAll<T>(xs: seq<T>, rest: seq<byte>,
                                            write: T -> seq<byte>, read: seq<byte> -> Read<T>)
    requires forall x, r :: read(write(x) + r) == Some((x, r))
    ensures ReadN(WriteAll(xs, write) + rest, |xs|, read) == Some((xs, rest))
  {
    if xs != [] {
      var tail := WriteAll(xs[1..], write) + rest;
      assert WriteAll(xs, write) + rest == write(xs[0]) + tail;
      assert read(write(xs[0]) + tail) == Some((xs[0], tail));
      ReadNWriteAll(xs[1..], rest, write, read);
      calc {
        ReadN(WriteAll(xs, write) + rest, |xs|, read);
        ReadN(write(xs[0]) + tail, |xs|, read);
        Cons(xs[0], ReadN(tail, |xs| - 1, read));
        Cons(xs[0], Some((xs[1..], rest)));
        Some(([xs[0]] + xs[1..], rest));
        { assert [xs[0]] + xs[1..] == xs; }
        Some((xs, rest));
      }
    } else {
      assert WriteAll(xs, write) + rest == rest;
    }
  }

  /** A count-less run of writeInt values reads back with readInt. */
  lemma IntsRoundTrip(xs: seq<int32>, rest: seq<byte>)
    ensures ReadN(WriteAll(xs, WriteInt) + rest, |xs|, ReadInt) == Some((xs, rest))
  {
    forall v, r ensures ReadInt(WriteInt(v) + r) == Some((v, r)) {
      IntRoundTrip(v, r);
    }
    ReadNWriteAll(xs, rest, WriteInt, ReadInt);
  }

  /** n values read by readers that each consume input: n values, and no more input than there was. */
  lemma {:induction false} ReadNShape<T>(s: seq<byte>, n: nat, read: seq<byte> -> Read<T>)
    requires forall x :: read(x).Some? ==> |read(x).value.1| < |x|
    ensures ReadN(s, n, read).Some? ==> |ReadN(s, n, read).value.0| == n && |ReadN(s, n, read).value.1| <= |s|
    decreases n
  {
    if n > 0 && read(s).Some? {
      ReadNShape(read(s).value.1, n - 1, read);
    }
  }

  /** One more step of a reading loop: the value read now joins the prefix. */
  lemma ReadNStep<T>(s: seq<byte>, n: nat, read: seq<byte> -> Read<T>, x: T, rest: seq<byte>)
    requires n > 0 && read(s) == Some((x, rest))
    ensures ReadN(s, n, read) == Cons(x, ReadN(rest, n - 1, read))
  {
  }

  /** Regrouping the fields of a message, without looking inside them. */
  lemma Regroup(a: seq<byte>, b: seq<byte>, c: seq<byte>, d: seq<byte>)
    ensures a + b + c + d == a + (b + (c + d))
  {
  }

  /** One turn of a reading loop: the value just read joins the values read so far. */
  lemma ReadNAdvance<T>(whole: Read<seq<T>>, acc: seq<T>, s: seq<byte>, n: nat,
                        read: seq<byte> -> Read<T>, x: T, rest: seq<byte>)
    requires whole == Prepend(acc, ReadN(s, n, read))
    requires n > 0 && read(s) == Some((x, rest))
    ensures whole == Prepend(acc + [x], ReadN(rest, n - 1, read))
  {
    ReadNStep(s, n, read, x, rest);
    PrependCons(acc, x, ReadN(rest, n - 1, read));
  }

  /** A reading loop that hits the end of the stream fails as a whole. */
  lemma ReadNStop<T>(s: seq<byte>, n: nat, read: seq<byte> -> Read<T>, acc: seq<T>)
    requires n > 0 && read(s).None?
    ensures Prepend(acc, ReadN(s, n, read)) == None
  {
  }

  /** A reading loop that has read all n values answers them with the unread rest. */
  lemma ReadNDone<T>(s: seq<byte>, read: seq<byte> -> Read<T>, acc: seq<T>)
    ensures Prepend(acc, ReadN(s, 0, read)) == Some((acc, s))
  {
    assert acc + [] == acc;
  }

  /** `for (int i = 0; i < count; i++) list.add(read(in))`: stops at the first value the stream lacks. */
  method ReadEach<T>(start: seq<byte>, count: nat, read: seq<byte> -> Read<T>) returns (values: Read<seq<T>>)
    ensures values == ReadN(start, count, read)
  {
    var input := start;
    var list: seq<T> := [];
    PrependNothing(ReadN(start, count, read));
    for i := 0 to count
      invariant ReadN(start, count, read) == Prepend(list, ReadN(input, count - i, read))
    {
      var next := read(input);
      if next.None? {
        ReadNStop(input, count - i, read, list);
        return None;
      }
      ReadNAdvance(ReadN(start, count, read), list, input, count - i, read, next.value.0, next.value.1);
      list := list + [next.value.0];
      input := next.value.1;
    }
    ReadNDone(input, read, list);
    values := Some((list, input));
  }

  // ---------------------------------------------------------------------------
  // Enumerating a set, as a Java for-each over a HashSet does in some order

  /** xs lists every element of s exactly once. */
  ghost predicate Enumerates<T(!new)>(xs: seq<T>, s: set<T>)
  {
    && |xs| == |s|
    && (forall i, j :: 0 <= i < j < |xs| ==> xs[i] != xs[j])
    && (forall x :: x in xs <==> x in s)
  }

  /** The values of m in the order of a listing of its keys. */
  function Listing<K, V>(m: map<K, V>, keys: seq<K>): (r: seq<V>)
    requires forall i :: 0 <= i < |keys| ==> keys[i] in m
    ensures |r| == |keys|
  {
    if keys == [] then [] else Listing(m, keys[..|keys| - 1]) + [m[keys[|keys| - 1]]]
  }

  lemma ListingSnoc<K, V>(m: map<K, V>, keys: seq<K>, k: K)
    requires forall i :: 0 <= i < |keys| ==> keys[i] in m
    requires k in m
    ensures Listing(m, keys + [k]) == Listing(m, keys) + [m[k]]
  {
    assert (keys + [k])[..|keys|] == keys;
  }

  /** The i-th value listed is the value under the i-th key. */
  lemma {:induction false} ListingAt<K, V>(m: map<K, V>, keys: seq<K>, i: nat)
    requires forall k :: 0 <= k < |keys| ==> keys[k] in m
    requires i < |keys|
    ensures Listing(m, keys)[i] == m[keys[i]]
  {
    if i < |keys| - 1 {
      ListingAt(m, keys[..|keys| - 1], i);
    }
  }

  /** `for (T x : set) write(x)`: every member once, in an order the set chooses. */
  method WriteMembers<T(==, !new)>(s: set<T>, write: T -> seq<byte>) returns (out: seq<byte>, ghost order: seq<T>)
    ensures Enumerates(order, s)
    ensures out == WriteAll(order, write)
  {
    out := [];
    order := [];
    var remaining := s;
    while remaining != {}
      invariant remaining <= s
      invariant |order| + |remaining| == |s|
      invariant forall i, j :: 0 <= i < j < |order| ==> order[i] != order[j]
      invariant forall x :: x in order <==> x in s && x !in remaining
      invariant out == WriteAll(order, write)
      decreases remaining
    {
      var x :| x in remaining;
      WriteAllSnoc(order, x, write);
      out := out + write(x);
      order := order + [x];
      remaining := remaining - {x};
    }
  }

  /** `map.forEach((k, v) -> write(v))`: every value once, in an order the map chooses. */
  method WriteValues<K(==, !new), V>(m: map<K, V>, write: V -> seq<byte>) returns (out: seq<byte>, ghost keys: seq<K>)
    ensures Enumerates(keys, m.Keys)
    ensures out == WriteAll(Listing(m, keys), write)
  {
    out := [];
    keys := [];
    ghost var listed: seq<V> := [];
    var remaining := m.Keys;
    while remaining != {}
      invariant remaining <= m.Keys
      invariant |keys| + |remaining| == |m.Keys|
      invariant forall i, j :: 0 <= i < j < |keys| ==> keys[i] != keys[j]
      invariant forall x :: x in keys <==> x in m && x !in remaining
      invariant listed == Listing(m, keys)
      invariant out == WriteAll(listed, write)
      decreases remaining
    {
      var k :| k in remaining;
      ListingSnoc(m, keys, k);
      WriteAllSnoc(listed, m[k], write);
      out := out + write(m[k]);
      keys := keys + [k];
      listed := listed + [m[k]];
      remaining := remaining - {k};
    }
  }
}

/** From an item's name to its bucket (hash.go and bucketFunc in store.go). */
module Hashing {
  import opened Types

  /** A hash provider: an unsigned 64-bit value for a name, or a failure. */
  type HashFunc = string -> Result<int>

  /** A stdlib hasher applied to a whole name: a digest of any length, or a failed write. */
  type Digest = string -> Result<Bytes>

  function Pow128(k: nat): (p: int)
    ensures p > 0
  {
    if k == 0 then 1 else 128 * Pow128(k - 1)
  }

  /** A decoded value and the bytes it took: 0 when the buffer ends early, negative on overflow. */
  datatype Decoded = Decoded(value: int, width: int)

  /**
   binary.Uvarint from byte `i` on, with `x` decoded so far. The source ORs each group of seven
   bits in above the ones before, which is the addition below.
   */
  function UvarintFrom(buf: Bytes, i: nat, x: int): Decoded
    requires i <= |buf|
    decreases |buf| - i
  {
    if i == |buf| then Decoded(0, 0)
    else
      var b := buf[i] as int;
      if b >= 128 then UvarintFrom(buf, i + 1, x + (b - 128) * Pow128(i))
      else if i > 9 || (i == 9 && b > 1) then Decoded(0, -(i + 1))
      else Decoded(x + b * Pow128(i), i + 1)
  }

  /** The first eight bytes of a digest. */
  function Capped(digest: Bytes): Bytes {
    if |digest| > 8 then digest[..8] else digest
  }

  /** HashProvider(f) applied to one digest. */
  function HashOf(digest: Bytes): Result<int> {
    var decoded := UvarintFrom(Capped(digest), 0, 0);
    if decoded.width < 0 then Err(HashFailed) else Ok(decoded.value)
  }

  function HashProvider(f: Digest): HashFunc {
    name => match f(name) case Err(e) => Err(e) case Ok(digest) => HashOf(digest)
  }

  /** bucketFunc(count, f) */
  function BucketFunc(count: int, f: HashFunc): string -> Result<int>
    requires count > 0
  {
    name => match f(name) case Err(e) => Err(e) case Ok(hash) => Ok(hash % count)
  }

  /** binary.Uvarint, byte by byte. */
  method Uvarint(buf: Bytes) returns (value: int, width: int)
    ensures Decoded(value, width) == UvarintFrom(buf, 0, 0)
  {
    var x, i, place := 0, 0, 1;
    while i < |buf|
      invariant 0 <= i <= |buf| && place == Pow128(i)
      invariant UvarintFrom(buf, i, x) == UvarintFrom(buf, 0, 0)
    {
      var b := buf[i] as int;
      if b < 128 {
        if i > 9 || (i == 9 && b > 1) {
          return 0, -(i + 1);
        }
        return x + b * place, i + 1;
      }
      x, place, i := x + (b - 128) * place, 128 * place, i + 1;
    }
    return 0, 0;
  }

  /** The base-128 little-endian encoding that binary.Uvarint reads. */
  function Encode(n: nat): (bytes: Bytes)
    ensures bytes != []
  {
    if n < 128 then [n as byte] else [(n % 128 + 128) as byte] + Encode(n / 128)
  }

  lemma NextDigit(x: int, digit: int, place: int)
    requires 0 <= x < place && 0 <= digit < 128
    ensures 0 <= x + digit * place < 128 * place
  {
    assert digit * place <= 127 * place;
  }

  lemma {:induction false} DecodeBound(buf: Bytes, i: nat, x: int)
    requires i <= |buf| && 0 <= x < Pow128(i)
    ensures 0 <= UvarintFrom(buf, i, x).value < Pow128(|buf|)
    decreases |buf| - i
  {
    if i < |buf| {
      var b := buf[i] as int;
      var digit := if b >= 128 then b - 128 else b;
      NextDigit(x, digit, Pow128(i));
      PowMonotone(i + 1, |buf|);
      if b >= 128 {
        DecodeBound(buf, i + 1, x + digit * Pow128(i));
      }
    } else {
      assert Pow128(|buf|) > 0;
    }
  }

  lemma {:induction false} PowMonotone(i: nat, j: nat)
    requires i <= j
    ensures Pow128(i) <= Pow128(j)
  {
    if i < j {
      PowMonotone(i, j - 1);
    }
  }

  lemma {:induction false} ShortNeverOverflows(buf: Bytes, i: nat, x: int)
    requires i <= |buf| <= 9
    ensures 0 <= UvarintFrom(buf, i, x).width <= |buf|
    decreases |buf| - i
  {
    if i < |buf| && buf[i] >= 128 {
      ShortNeverOverflows(buf, i + 1, x + (buf[i] as int - 128) * Pow128(i));
    }
  }

  /** A digest of any length hashes to a value below 2^56: the overflow branch is never taken. */
  lemma HashNeverOverflows(digest: Bytes)
    ensures HashOf(digest).Ok? && 0 <= HashOf(digest).value < 0x100_0000_0000_0000
  {
    var buf := Capped(digest);
    ShortNeverOverflows(buf, 0, 0);
    DecodeBound(buf, 0, 0);
    PowMonotone(|buf|, 8);
    assert Pow128(8) == 0x100_0000_0000_0000 by {
      assert Pow128(4) == 128 * 128 * 128 * 128 by { assert Pow128(2) == 128 * 128; }
      assert Pow128(6) == 128 * 128 * Pow128(4);
    }
  }

  lemma Regroup(n: nat, place: int)
    ensures (n % 128) * place + (n / 128) * (128 * place) == n * place
  {
    var low, high := n % 128, n / 128;
    assert n == low + high * 128;
    assert high * (128 * place) == (high * 128) * place;
    assert (low + high * 128) * place == low * place + (high * 128) * place;
  }

  lemma {:induction false} DecodeEncoded(prefix: Bytes, n: nat, rest: Bytes, x: int)
    requires |prefix| + |Encode(n)| <= 9
    ensures UvarintFrom(prefix + Encode(n) + rest, |prefix|, x)
         == Decoded(x + n * Pow128(|prefix|), |prefix| + |Encode(n)|)
    decreases n
  {
    var buf, i := prefix + Encode(n) + rest, |prefix|;
    if n >= 128 {
      var first := (n % 128 + 128) as byte;
      assert buf[i] == first;
      assert buf == (prefix + [first]) + Encode(n / 128) + rest;
      DecodeEncoded(prefix + [first], n / 128, rest, x + (n % 128) * Pow128(i));
      Regroup(n, Pow128(i));
    } else {
      assert buf[i] == n as byte;
    }
  }

  /** A digest that starts with the encoding of a number hashes to that number. */
  lemma HashOfEncoded(n: nat, rest: Bytes)
    requires |Encode(n)| <= 8
    ensures HashOf(Encode(n) + rest) == Ok(n)
  {
    var buf := Capped(Encode(n) + rest);
    assert buf == [] + Encode(n) + buf[|Encode(n)|..];
    DecodeEncoded([], n, buf[|Encode(n)|..], 0);
  }

  /** The number that bytes spell in base 128, lowest place first, whatever their high bits. */
  function Spelled(bytes: Bytes): nat {
    if bytes == [] then 0 else bytes[0] as int % 128 + 128 * Spelled(bytes[1..])
  }

  /** `k` is the first byte without its high bit, where an encoding ends. */
  ghost predicate EndsAt(buf: Bytes, k: nat) {
    k < |buf| && buf[k] < 128 && forall i :: 0 <= i < k ==> buf[i] >= 128
  }

  ghost predicate EndsNowhere(buf: Bytes) {
    forall i :: 0 <= i < |buf| ==> buf[i] >= 128
  }

  lemma SpelledStep(x: int, b: int, place: int, rest: int)
    requires b >= 128
    ensures x + (b - 128) * place + rest * (128 * place) == x + ((b - 128) + 128 * rest) * place
  {
    assert rest * (128 * place) == (128 * rest) * place;
  }

  lemma {:induction false} DecodesFrom(buf: Bytes, i: nat, x: int, k: nat)
    requires i <= k && EndsAt(buf, k)
    ensures UvarintFrom(buf, i, x) ==
            if k > 9 || (k == 9 && buf[k] > 1) then Decoded(0, -(k + 1))
            else Decoded(x + Spelled(buf[i..k + 1]) * Pow128(i), k + 1)
    decreases k - i
  {
    var bytes := buf[i..k + 1];
    assert bytes[1..] == buf[i + 1..k + 1];
    if i < k {
      var b := buf[i] as int;
      DecodesFrom(buf, i + 1, x + (b - 128) * Pow128(i), k);
      SpelledStep(x, b, Pow128(i), Spelled(bytes[1..]));
    } else {
      assert Spelled(bytes[1..]) == 0;
    }
  }

  lemma {:induction false} EndsEarly(buf: Bytes, i: nat, x: int)
    requires i <= |buf| && EndsNowhere(buf)
    ensures UvarintFrom(buf, i, x) == Decoded(0, 0)
    decreases |buf| - i
  {
    if i < |buf| {
      EndsEarly(buf, i + 1, x + (buf[i] as int - 128) * Pow128(i));
    }
  }

  /**
   What binary.Uvarint answers for any buffer: the number spelled up to the first byte without its high
   bit, with the bytes that took; 0 and a negative width if that is more than 64 bits; and 0 and no bytes
   if there is no such byte.
   */
  lemma UvarintMeans(buf: Bytes, k: nat)
    ensures EndsNowhere(buf) ==> UvarintFrom(buf, 0, 0) == Decoded(0, 0)
    ensures EndsAt(buf, k) ==>
              UvarintFrom(buf, 0, 0) ==
              if k > 9 || (k == 9 && buf[k] > 1) then Decoded(0, -(k + 1)) else Decoded(Spelled(buf[..k + 1]), k + 1)
  {
    if EndsNowhere(buf) {
      EndsEarly(buf, 0, 0);
    } else if EndsAt(buf, k) {
      DecodesFrom(buf, 0, 0, k);
      assert buf[0..k + 1] == buf[..k + 1];
    }
  }

  /** What any digest hashes to: the number spelled by its first eight bytes, or 0 if that has no end there. */
  lemma HashMeans(digest: Bytes, k: nat)
    ensures (forall i :: 0 <= i < |digest| && i < 8 ==> digest[i] >= 128) ==> HashOf(digest) == Ok(0)
    ensures k < 8 && EndsAt(digest, k) ==> HashOf(digest) == Ok(Spelled(digest[..k + 1]))
  {
    var buf := Capped(digest);
    UvarintMeans(buf, k);
    if forall i :: 0 <= i < |digest| && i < 8 ==> digest[i] >= 128 {
      assert EndsNowhere(buf);
    } else if k < 8 && EndsAt(digest, k) {
      assert EndsAt(buf, k) && buf[..k + 1] == digest[..k + 1];
    }
  }

  /** With any digest and any positive bucket count, the bucket exists and lies in range. */
  lemma BucketInRange(count: int, f: Digest, name: string)
    requires count > 0
    ensures f(name).Ok? ==>
              var bucket := BucketFunc(count, HashProvider(f))(name);
              && bucket.Ok? && 0 <= bucket.value < count
              && exists k :: HashOf(f(name).value) == Ok(k * count + bucket.value)
    ensures f(name).Err? ==> BucketFunc(count, HashProvider(f))(name) == Err(f(name).error)
  {
    if f(name).Ok? {
      HashNeverOverflows(f(name).value);
      var hash := HashOf(f(name).value).value;
      assert hash == hash / count * count + hash % count;
    }
  }
}

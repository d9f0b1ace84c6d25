/**
 The signed-transaction wire format (packages/xend/lib/src/wire.dart), against a small
 strict reader of the compact-u16 count and the 64-byte signatures the chain expects.
 */
module Wire {
  import opened Numerals
  import opened Wrappers

  type Bytes = seq<byte>

  const MAX_LENGTH: nat := 0xffff

  /** Seven bits per byte, least significant first, the high bit marking continuation. */
  function ShortVec(length: nat): Bytes {
    if length < 128 then [length] else [length % 128 + 128] + ShortVec(length / 128)
  }

  method EncodeShortVecLength(length: nat) returns (bytes: Bytes)
    requires length <= MAX_LENGTH
    ensures bytes == ShortVec(length)
  {
    bytes := [];
    var remaining := length;
    while true
      invariant ShortVec(length) == bytes + ShortVec(remaining)
      decreases remaining
    {
      var low := remaining % 128;
      remaining := remaining / 128;
      if remaining == 0 {
        return bytes + [low];
      }
      bytes := bytes + [low + 128];
    }
  }

  /** Reads a count of at most three bytes, refusing a superfluous final zero byte. */
  function ReadCount(bytes: Bytes, position: nat): Option<(nat, Bytes)> {
    if bytes == [] then None
    else if bytes[0] < 128 then
      if bytes[0] == 0 && position > 0 then None else Some((bytes[0], bytes[1..]))
    else if position >= 2 then None
    else match ReadCount(bytes[1..], position + 1)
      case None => None
      case Some((high, rest)) => Some((bytes[0] - 128 + 128 * high, rest))
  }

  function ReadShortVec(bytes: Bytes): Option<(nat, Bytes)> {
    match ReadCount(bytes, 0)
    case None => None
    case Some((n, rest)) => if n <= MAX_LENGTH then Some((n, rest)) else None
  }

  lemma {:induction false} ReadCountOf(n: nat, rest: Bytes, position: nat)
    requires n < (if position == 0 then 0x20_0000 else if position == 1 then 0x4000 else 128)
    requires position <= 2 && (position > 0 ==> n > 0)
    ensures ReadCount(ShortVec(n) + rest, position) == Some((n, rest))
    decreases n
  {
    if n >= 128 {
      assert (ShortVec(n) + rest)[1..] == ShortVec(n / 128) + rest;
      ReadCountOf(n / 128, rest, position + 1);
    } else {
      assert ([n] + rest)[1..] == rest;
    }
  }

  lemma {:induction false} CountIsShortVec(bytes: Bytes, position: nat)
    requires ReadCount(bytes, position).Some?
    ensures bytes == ShortVec(ReadCount(bytes, position).value.0) + ReadCount(bytes, position).value.1
    ensures position > 0 ==> ReadCount(bytes, position).value.0 > 0
    decreases bytes
  {
    if bytes[0] < 128 {
      assert bytes == [bytes[0]] + bytes[1..];
    } else {
      CountIsShortVec(bytes[1..], position + 1);
      var high := ReadCount(bytes[1..], position + 1).value.0;
      var n := bytes[0] - 128 + 128 * high;
      assert n % 128 == bytes[0] - 128 && n / 128 == high && n >= 128;
      assert bytes == [bytes[0]] + bytes[1..];
    }
  }

  /** The reader recovers a length and the untouched remainder, and accepts nothing else. */
  lemma ShortVecExact(bytes: Bytes, n: nat, rest: Bytes)
    ensures ReadShortVec(bytes) == Some((n, rest)) <==> n <= MAX_LENGTH && bytes == ShortVec(n) + rest
  {
    if n <= MAX_LENGTH {
      ReadCountOf(n, rest, 0);
    }
    if ReadShortVec(bytes) == Some((n, rest)) {
      CountIsShortVec(bytes, 0);
    }
  }

  /** No encoding is a prefix of another. */
  lemma PrefixFree(m: nat, n: nat)
    requires m <= MAX_LENGTH && n <= MAX_LENGTH && ShortVec(m) <= ShortVec(n)
    ensures m == n
  {
    var rest := ShortVec(n)[|ShortVec(m)|..];
    ShortVecExact(ShortVec(n), m, rest);
    ShortVecExact(ShortVec(n), n, []);
    assert ShortVec(n) + [] == ShortVec(n);
  }

  /** Any continuation-marked group of bytes, minimal or not. */
  predicate Terminated(group: Bytes) {
    group != [] && group[|group| - 1] < 128 && forall i :: 0 <= i < |group| - 1 ==> group[i] >= 128
  }

  function Payload(group: Bytes): nat {
    if group == [] then 0 else group[0] % 128 + 128 * Payload(group[1..])
  }

  lemma {:induction false} Shortest(group: Bytes)
    requires Terminated(group)
    ensures |ShortVec(Payload(group))| <= |group|
    decreases |group|
  {
    if |group| > 1 {
      assert Terminated(group[1..]);
      Shortest(group[1..]);
      assert Payload(group) / 128 == Payload(group[1..]);
    } else {
      assert Payload(group[1..]) == 0;
    }
  }

  /** The three widths of a count. */
  lemma ShortVecSpelledOut(n: nat)
    requires n <= MAX_LENGTH
    ensures ShortVec(n) ==
      if n < 0x80 then [n]
      else if n < 0x4000 then [n % 0x80 + 0x80, n / 0x80]
      else [n % 0x80 + 0x80, n / 0x80 % 0x80 + 0x80, n / 0x4000]
  {
    if n >= 0x4000 {
      assert ShortVec(n / 0x80 / 0x80) == [n / 0x80 / 0x80];
      assert n / 0x80 / 0x80 == n / 0x4000;
    }
  }

  // ---- transactions ----

  function Flatten(signatures: seq<Bytes>): Bytes {
    if signatures == [] then [] else Flatten(signatures[..|signatures| - 1]) + signatures[|signatures| - 1]
  }

  function WireForm(signatures: seq<Bytes>, message: Bytes): Bytes {
    ShortVec(|signatures|) + Flatten(signatures) + message
  }

  method AssembleSignedTransaction(signatures: seq<Bytes>, message: Bytes) returns (wire: Bytes)
    requires |signatures| <= MAX_LENGTH
    ensures wire == WireForm(signatures, message)
  {
    wire := EncodeShortVecLength(|signatures|);
    for i := 0 to |signatures|
      invariant wire == ShortVec(|signatures|) + Flatten(signatures[..i])
    {
      assert signatures[..i + 1][..i] == signatures[..i];
      wire := wire + signatures[i];
    }
    assert signatures[..|signatures|] == signatures;
    wire := wire + message;
  }

  ghost predicate Are64(signatures: seq<Bytes>) {
    forall i :: 0 <= i < |signatures| ==> |signatures[i]| == 64
  }

  /** `n` signatures of 64 bytes from the front of `bytes`. */
  function ReadSignatures(bytes: Bytes, n: nat): (signatures: seq<Bytes>)
    requires |bytes| >= 64 * n
    ensures |signatures| == n && Are64(signatures)
  {
    if n == 0 then []
    else ReadSignatures(bytes, n - 1) + [bytes[64 * (n - 1)..64 * n]]
  }

  function ReadTransaction(bytes: Bytes): Option<(seq<Bytes>, Bytes)> {
    match ReadShortVec(bytes)
    case None => None
    case Some((n, rest)) =>
      if |rest| < 64 * n then None else Some((ReadSignatures(rest, n), rest[64 * n..]))
  }

  lemma {:induction false} FlattenSignatures(bytes: Bytes, n: nat)
    requires |bytes| >= 64 * n
    ensures Flatten(ReadSignatures(bytes, n)) == bytes[..64 * n]
  {
    if n > 0 {
      FlattenSignatures(bytes, n - 1);
      var s := ReadSignatures(bytes, n);
      assert s[..n - 1] == ReadSignatures(bytes, n - 1);
      assert bytes[..64 * n] == bytes[..64 * (n - 1)] + bytes[64 * (n - 1)..64 * n];
    }
  }

  lemma {:induction false} SignaturesOfFlatten(signatures: seq<Bytes>, rest: Bytes)
    requires Are64(signatures)
    ensures |Flatten(signatures)| == 64 * |signatures|
    ensures ReadSignatures(Flatten(signatures) + rest, |signatures|) == signatures
  {
    if signatures != [] {
      var n := |signatures|;
      var front, last := signatures[..n - 1], signatures[n - 1];
      SignaturesOfFlatten(front, last + rest);
      var bytes := Flatten(signatures) + rest;
      assert bytes == Flatten(front) + (last + rest);
      assert bytes[64 * (n - 1)..64 * n] == last;
    }
  }

  /** The reader takes a transaction apart exactly as it was assembled, and reads nothing else. */
  lemma TransactionExact(bytes: Bytes, signatures: seq<Bytes>, message: Bytes)
    ensures ReadTransaction(bytes) == Some((signatures, message)) <==>
      |signatures| <= MAX_LENGTH && Are64(signatures) && bytes == WireForm(signatures, message)
  {
    hide ReadShortVec, ShortVec;
    var n := |signatures|;
    if ReadTransaction(bytes) == Some((signatures, message)) {
      var rest := ReadShortVec(bytes).value.1;
      ShortVecExact(bytes, n, rest);
      FlattenSignatures(rest, n);
      assert rest == rest[..64 * n] + rest[64 * n..];
      assert bytes == WireForm(signatures, message);
    } else if n <= MAX_LENGTH && Are64(signatures) {
      var rest := Flatten(signatures) + message;
      ShortVecExact(WireForm(signatures, message), n, rest);
      assert WireForm(signatures, message) == ShortVec(n) + rest;
      SignaturesOfFlatten(signatures, message);
      assert rest[64 * n..] == message;
    }
  }

  lemma AssemblyInjective(s: seq<Bytes>, m: Bytes, t: seq<Bytes>, n: Bytes)
    requires |s| <= MAX_LENGTH && |t| <= MAX_LENGTH && Are64(s) && Are64(t)
    requires WireForm(s, m) == WireForm(t, n)
    ensures s == t && m == n
  {
    TransactionExact(WireForm(s, m), s, m);
    TransactionExact(WireForm(s, m), t, n);
  }

  /** `send`'s signature list: the fee payer's, when sponsored, ahead of the sender's. */
  function SendOrder(feePayer: Option<Bytes>, sender: Bytes): seq<Bytes> {
    match feePayer
    case Some(signature) => [signature, sender]
    case None => [sender]
  }

  lemma SentTransactionReads(feePayer: Option<Bytes>, sender: Bytes, message: Bytes)
    requires |sender| == 64 && (feePayer.Some? ==> |feePayer.value| == 64)
    ensures
      var read := ReadTransaction(WireForm(SendOrder(feePayer, sender), message));
      && read.Some? && read.value.1 == message
      && read.value.0[|read.value.0| - 1] == sender
      && (feePayer.Some? <==> |read.value.0| == 2)
      && (feePayer.Some? ==> read.value.0[0] == feePayer.value)
  {
    TransactionExact(WireForm(SendOrder(feePayer, sender), message), SendOrder(feePayer, sender), message);
  }

  /** The development client (gasless_client.rs:78-83) pushes the count as one truncated byte. */
  function DevClientForm(signatures: seq<Bytes>, message: Bytes): Bytes {
    [|signatures| % 256] + Flatten(signatures) + message
  }

  lemma DevClientAgrees(signatures: seq<Bytes>, message: Bytes)
    ensures DevClientForm(signatures, message) == WireForm(signatures, message) <==> |signatures| < 128
  {
    var n := |signatures|;
    if n >= 128 {
      assert |ShortVec(n)| >= 2 by { assert |ShortVec(n / 128)| >= 1; }
      assert |DevClientForm(signatures, message)| < |WireForm(signatures, message)|;
    }
  }
}

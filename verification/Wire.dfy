/** Id lists, encrypted payloads and framed replies, as both ends of a connection write and read them. */
module Wire {
  import opened Bytes
  import opened Entries
  import opened Limits
  import opened Wrappers

  // ---- Id lists ----

  function Ids(ids: seq<nat>): (s: seq<byte>)
    ensures |s| == 8 * |ids|
  {
    if ids == [] then [] else Be(ids[0], 8) + Ids(ids[1..])
  }

  function ReadIds(s: seq<byte>): (ids: seq<nat>)
    ensures |ids| == |s| / 8
  {
    if |s| < 8 then [] else [Hton(FromLe(s[..8]), 8)] + ReadIds(s[8..])
  }

  lemma {:induction false} IdsBack(ids: seq<nat>)
    requires forall id :: id in ids ==> id < U64
    ensures ReadIds(Ids(ids)) == ids
    decreases |ids|
  {
    hide Be, Hton, FromLe;
    if ids != [] {
      var s := Ids(ids);
      assert s[..8] == Be(ids[0], 8) && s[8..] == Ids(ids[1..]);
      assert ids[0] in ids && forall id :: id in ids[1..] ==> id in ids;
      assert ids == [ids[0]] + ids[1..];
      IdBack(ids[0]);
      IdsBack(ids[1..]);
    }
  }

  lemma IdBack(id: nat)
    requires id < U64
    ensures Hton(FromLe(Be(id, 8)), 8) == id
  {
    hide Be, Hton, FromLe, Range;
    Range4();
    HtonLayout(id, 8);
    FromLeOfLe(Hton(id, 8), 8);
  }

  /** The conversion loop over a received id list, word by word in place. */
  method ConvertIds(payload: seq<byte>) returns (ids: seq<nat>)
    requires |payload| % 8 == 0
    ensures ids == ReadIds(payload)
  {
    hide Hton, FromLe, Range;
    ids := [];
    var rest := payload;
    while rest != []
      invariant |rest| % 8 == 0 && ReadIds(payload) == ids + ReadIds(rest)
      decreases |rest|
    {
      FromLeRange(rest[..8]);
      var id := Htonll(FromLe(rest[..8]));
      assert ids + ([id] + ReadIds(rest[8..])) == ids + [id] + ReadIds(rest[8..]);
      ids, rest := ids + [id], rest[8..];
    }
    assert ids + [] == ids;
  }

  // ---- Encryption ----

  /** The authenticated cipher is foreign code: what it adds, and that decryption undoes encryption. */
  datatype Crypto = Crypto(
    enc: (seq<byte>, nat, seq<byte>) -> seq<byte>,
    dec: (seq<byte>, nat, seq<byte>) -> Option<seq<byte>>,
    extra: nat)

  ghost predicate Sound(c: Crypto) {
    && (forall k, n: nat, p :: |c.enc(k, n, p)| == |p| + c.extra)
    && (forall k, n: nat, p :: c.dec(k, n, c.enc(k, n, p)) == Some(p))
    && (forall k, n: nat, q :: c.dec(k, n, q).Some? ==> |q| == |c.dec(k, n, q).value| + c.extra)
  }

  /** One end's cipher state: the agreed key and the counter that every operation increments first. */
  datatype Cipher = Cipher(key: seq<byte>, nonce: nat)

  /** entry_payload_encrypt() and entry_payload_decrypt(). */
  function Encrypt(c: Crypto, s: Cipher, p: seq<byte>): (Cipher, seq<byte>) {
    (s.(nonce := s.nonce + 1), c.enc(s.key, s.nonce + 1, p))
  }

  function Decrypt(c: Crypto, s: Cipher, q: seq<byte>): (Cipher, Option<seq<byte>>) {
    (s.(nonce := s.nonce + 1), c.dec(s.key, s.nonce + 1, q))
  }

  /** The reply as written: the 32-bit size of the whole, size word included, then the encrypted payload. */
  function Frame(q: seq<byte>): seq<byte> {
    var n := (4 + |q|) % U32;
    (Be(n, 4) + q)[..n]
  }

  lemma FrameIs(q: seq<byte>)
    requires 4 + |q| < U32
    ensures Frame(q) == Be(4 + |q|, 4) + q && |Frame(q)| == 4 + |q|
    ensures Frame(q)[..4] == Be(4 + |q|, 4) && Frame(q)[4..] == q
    ensures Hton(FromLe(Frame(q)[..4]), 4) - 4 == |q|
  {
    hide Be, Hton, FromLe, Range;
    Range4();
    var n := 4 + |q|;
    HtonLayout(n, 4);
    FromLeOfLe(Hton(n, 4), 4);
    assert (Be(n, 4) + q)[..n] == Be(n, 4) + q;
  }

  // ---- Replies to NEW and DEL ----

  function RunReply(id: nat): seq<byte> {
    Be(id, 8)
  }

  /** process_client_recv_run(). */
  function ReadRun(p: seq<byte>): nat
    requires |p| >= 8
  {
    Hton(FromLe(p[..8]), 8)
  }

  function StopReply(done: seq<nat>): seq<byte> {
    Be(|done|, 4) + Ids(done)
  }

  /** process_client_recv_stop(): the count, then that many ids. */
  function ReadStop(p: seq<byte>): Option<seq<nat>> {
    if |p| < 4 then None
    else
      var n := Hton(FromLe(p[..4]), 4);
      if 4 + 8 * n > |p| then None else Some(ReadIds(p[4..4 + 8 * n]))
  }

  /** The client reads back the id and the id list that the daemon put in. */
  lemma RepliesBack(id: nat, done: seq<nat>)
    requires id < U64 && |done| < U32 && forall x :: x in done ==> x < U64
    ensures ReadRun(RunReply(id)) == id && ReadStop(StopReply(done)) == Some(done)
  {
    hide Be, Hton, FromLe, Range, Ids, ReadIds;
    IdBack(id);
    assert Be(id, 8)[..8] == Be(id, 8);
    Range4();
    HtonLayout(|done|, 4);
    FromLeOfLe(Hton(|done|, 4), 4);
    var p := StopReply(done);
    assert p[..4] == Be(|done|, 4) && p[4..4 + 8 * |done|] == Ids(done);
    IdsBack(done);
  }
}

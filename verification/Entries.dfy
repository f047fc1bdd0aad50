/** The scheduler entry: struct usched_entry, its flags and its signature. */
module Entries {
  import opened Bytes
  import opened Limits

  // Flag bit numbers.
  const NEW := 1
  const DEL := 2
  const GET := 3
  const MONTHDAY_ALIGN := 5
  const YEARDAY_ALIGN := 6
  const RELATIVE_TRIGGER := 7
  const RELATIVE_EXPIRE := 8
  const INIT := 9
  const PROGRESS := 10
  const AUTHORIZED := 11
  const FINISH := 12
  const COMPLETE := 13
  const TRIGGERED := 14
  const SERIALIZED := 15
  const INVALID := 16
  const REMOVED := 19

  const SIGNATURE_SIZE := 32

  type Flags = s: set<nat> | forall b :: b in s ==> b < 32

  datatype Entry = Entry(
    id: nat, flags: Flags, uid: nat, gid: nat,
    trigger: nat, step: nat, expire: nat,
    pid: nat, status: nat, execTime: nat, latency: nat,
    outLen: nat, outdata: seq<byte>,
    username: seq<byte>, subj: seq<byte>,
    timer: nat, createTime: nat, signature: seq<byte>)

  /** entry_set_flag() and entry_unset_flag(). */
  function Set(e: Entry, f: nat): Entry
    requires f < 32
  {
    e.(flags := e.flags + {f})
  }

  function Unset(e: Entry, f: nat): Entry {
    e.(flags := e.flags - {f})
  }

  /** The words up to outdata_len: id, flags, uid, gid, trigger, step, expire, pid, status, exec_time, latency. */
  function Widths(): (ws: seq<nat>)
    ensures |ws| == 12
  {
    [8, 4, 4, 4, 4, 4, 4, 4, 4, 8, 8, 4]
  }

  function Words(e: Entry): (vs: seq<nat>)
    ensures |vs| == 12
  {
    [ e.id, WordFrom(e.flags, 0), e.uid, e.gid, e.trigger, e.step, e.expire,
      e.pid, e.status, e.execTime, e.latency, e.outLen ]
  }

  function Zeros(n: nat): (s: seq<byte>)
    ensures |s| == n
  {
    seq(n, i => 0)
  }

  /** The struct with these words and buffers; everything else is zeroed memory. */
  function FromWords(vs: seq<nat>, outdata: seq<byte>, username: seq<byte>, subj: seq<byte>): Entry
    requires |vs| == 12
  {
    Entry(vs[0], BitsFrom(vs[1], 0), vs[2], vs[3], vs[4], vs[5], vs[6], vs[7], vs[8], vs[9], vs[10], vs[11],
          outdata, username, subj, 0, 0, Zeros(SIGNATURE_SIZE))
  }

  /** Every field fits its type. */
  predicate Sized(e: Entry) {
    && e.id < U64 && e.uid < U32 && e.gid < U32 && e.trigger < U32 && e.step < U32 && e.expire < U32
    && e.pid < U32 && e.status < U32 && e.execTime < U64 && e.latency < U64 && e.outLen < U32
    && |e.outdata| == OUTPUT_MAX && |e.username| == USERNAME_MAX && |e.subj| + 1 < U32
    && e.createTime < U32 && |e.signature| == SIGNATURE_SIZE
  }

  lemma WordsFit(e: Entry)
    requires Sized(e)
    ensures Fits(Widths(), Words(e)) && Width(Widths()) == 60
  {
    hide Range, WordFrom, Width;
    Range4();
    WordFits(e.flags);
    WidthsSum();
  }

  lemma WidthsSum()
    ensures Width(Widths()) == 60
  {
  }

  lemma FromWordsOfWords(e: Entry)
    ensures FromWords(Words(e), e.outdata, e.username, e.subj) ==
            e.(timer := 0, createTime := 0, signature := Zeros(SIGNATURE_SIZE))
  {
    hide WordFrom, BitsFrom, Zeros;
    FlagsRoundTrip(e.flags);
  }
}

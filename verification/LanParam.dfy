/**
 Writing a LAN configuration parameter under the set-in-progress lock (section 23.1 of the IPMI v2.0
 specification): lock, write with retries, read back until the value has taken effect, commit and
 unlock.  The exchanges a run may consist of are described by what happened in them; the loops are
 proved to stay within that description, and the description to leave no choice.
 */
module LanParam {
  import opened Bytes

  const SET_IN_PROGRESS := 0
  const UNLOCK: byte := 0
  const LOCK: byte := 1
  const COMMIT: byte := 2
  const LOCK_WRITES := 3
  const RETRIES := 10

  datatype Command = Get(param: int) | Set(param: int, data: seq<byte>)

  /** `raw` is the data of an answer, the parameter revision first; `stale` is what the response
      buffer holds at index 1 if the answer does not reach that far. */
  datatype Reply = Nothing | Answer(cc: byte, raw: seq<byte>, stale: byte)

  datatype Exchange = Exchange(command: Command, reply: Reply)

  predicate Unsupported(cc: byte) {
    cc in {0x80, 0xc9, 0xcc}
  }

  /** Whether a read-back holds exactly `data`; an unsupported parameter counts as empty. */
  predicate Matches(r: Reply, data: seq<byte>) {
    r.Answer? && if r.cc == 0 then |r.raw| > 0 && r.raw[1..] == data else Unsupported(r.cc) && data == []
  }

  /** ipmi_lanp_lock_state. */
  function LockState(r: Reply): (s: int)
    ensures -1 <= s < 4
  {
    if r.Nothing? || r.cc != 0 then -1 else (if |r.raw| > 1 then r.raw[1] else r.stale) % 4
  }

  // ----- what the phases of a run look like

  /** Reads and lock writes in turn. */
  function LockCommand(i: nat): (c: Command) {
    if i % 2 == 0 then Get(SET_IN_PROGRESS) else Set(SET_IN_PROGRESS, [LOCK])
  }

  /** Reads of the lock state, with a lock write between any two: as long as the parameter is there
      and not locked, and no more than three times. */
  ghost predicate LockPhase(t: seq<Exchange>) {
    && |t| % 2 == 1 && |t| <= 2 * LOCK_WRITES + 1
    && (forall i :: 0 <= i < |t| ==> t[i].command == LockCommand(i))
    && (forall i :: 0 <= i < |t| - 1 && i % 2 == 0 ==> LockState(t[i].reply) !in {-1, LOCK as int})
    && (|t| < 2 * LOCK_WRITES + 1 ==> LockState(t[|t| - 1].reply) in {-1, LOCK as int})
  }

  predicate Accepted(r: Reply) {
    r.Answer? && r.cc == 0
  }

  predicate Invalid(r: Reply) {
    r.Answer? && r.cc == 0xcc
  }

  /** A first write that ends the call: no answer, or a code other than 0, 0xcc and 0xff. */
  predicate Abandoned(r: Reply) {
    r.Nothing? || r.cc !in {0, 0xcc, 0xff}
  }

  /** One write, or after 0xcc up to ten more until one is accepted. */
  ghost predicate WritePhase(t: seq<Exchange>, param: int, data: seq<byte>) {
    && 1 <= |t| <= RETRIES + 1
    && (forall i :: 0 <= i < |t| ==> t[i].command == Set(param, data))
    && (|t| > 1 <==> Invalid(t[0].reply))
    && (forall i :: 1 <= i < |t| - 1 ==> !Accepted(t[i].reply))
    && (1 < |t| <= RETRIES ==> Accepted(t[|t| - 1].reply))
  }

  /** Read-backs until one matches, at most eleven. */
  ghost predicate WaitPhase(t: seq<Exchange>, param: int, data: seq<byte>) {
    && 1 <= |t| <= RETRIES + 1
    && (forall i :: 0 <= i < |t| ==> t[i].command == Get(param))
    && (forall i :: 0 <= i < |t| - 1 ==> !Matches(t[i].reply, data))
    && (|t| <= RETRIES ==> Matches(t[|t| - 1].reply, data))
  }

  ghost predicate Confirmed(t: seq<Exchange>, data: seq<byte>) {
    t != [] && Matches(t[|t| - 1].reply, data)
  }

  /** Where the phases end: after the lock, the writes and the read-backs. */
  datatype Cuts = Cuts(lock: nat, writes: nat, waits: nat)

  ghost predicate DataPhase(t: seq<Exchange>, c: Cuts, param: int, data: seq<byte>, ok: bool)
    requires c.lock <= c.writes <= c.waits <= |t|
  {
    var (writes, waits) := (t[c.lock..c.writes], t[c.writes..c.waits]);
    if param < 0 then c.lock == c.waits && !ok
    else if |writes| > 0 && Abandoned(writes[0].reply) then WritePhase(writes, param, data) && waits == [] && !ok
    else WritePhase(writes, param, data) && WaitPhase(waits, param, data) && (ok <==> Confirmed(waits, data))
  }

  /** A whole run of set_lan_param that returned `ok`. */
  ghost predicate Run(t: seq<Exchange>, c: Cuts, param: int, data: seq<byte>, ok: bool) {
    && c.lock <= c.writes <= c.waits && |t| == c.waits + 2
    && LockPhase(t[..c.lock])
    && DataPhase(t, c, param, data, ok)
    && t[c.waits].command == Set(SET_IN_PROGRESS, [COMMIT])
    && t[c.waits + 1].command == Set(SET_IN_PROGRESS, [UNLOCK])
  }

  // ----- consequences

  function Count(t: seq<Exchange>, c: Command): (r: nat) {
    if t == [] then 0 else Count(t[..|t| - 1], c) + if t[|t| - 1].command == c then 1 else 0
  }

  lemma {:induction false} CountConcat(a: seq<Exchange>, b: seq<Exchange>, c: Command)
    ensures Count(a + b, c) == Count(a, c) + Count(b, c)
    decreases |b|
  {
    if b == [] {
      assert a + b == a;
    } else {
      assert (a + b)[..|a + b| - 1] == a + b[..|b| - 1];
      CountConcat(a, b[..|b| - 1], c);
    }
  }

  lemma {:induction false} CountBound(t: seq<Exchange>, c: Command)
    ensures Count(t, c) <= |t|
    ensures (forall i :: 0 <= i < |t| ==> t[i].command != c) ==> Count(t, c) == 0
    decreases |t|
  {
    if t != [] {
      CountBound(t[..|t| - 1], c);
    }
  }

  /** Every second exchange of the lock phase is a lock write. */
  lemma {:induction false} CountLocks(t: seq<Exchange>, n: nat)
    requires n <= |t|
    requires forall i :: 0 <= i < |t| ==> t[i].command == LockCommand(i)
    ensures Count(t[..n], Set(SET_IN_PROGRESS, [LOCK])) == n / 2
    decreases n
  {
    if n > 0 {
      CountLocks(t, n - 1);
      assert t[..n][..n - 1] == t[..n - 1];
    }
  }

  lemma CountPhases(t: seq<Exchange>, c: Cuts, x: Command)
    requires c.lock <= c.writes <= c.waits <= |t|
    ensures Count(t, x) == Count(t[..c.lock], x) + Count(t[c.lock..c.writes], x)
                           + Count(t[c.writes..c.waits], x) + Count(t[c.waits..], x)
  {
    assert t == t[..c.lock] + t[c.lock..] && t[c.lock..] == t[c.lock..c.writes] + t[c.writes..];
    assert t[c.writes..] == t[c.writes..c.waits] + t[c.waits..];
    CountConcat(t[..c.lock], t[c.lock..], x);
    CountConcat(t[c.lock..c.writes], t[c.writes..], x);
    CountConcat(t[c.writes..c.waits], t[c.waits..], x);
  }

  lemma PhaseCounts(t: seq<Exchange>, c: Cuts, x: Command)
    requires c.lock <= c.writes <= c.waits <= |t|
    ensures Count(t[c.lock..c.writes], x) <= c.writes - c.lock
    ensures Count(t[c.writes..c.waits], x) <= c.waits - c.writes
    ensures (forall i :: c.lock <= i < c.writes ==> t[i].command != x) ==> Count(t[c.lock..c.writes], x) == 0
    ensures (forall i :: c.writes <= i < c.waits ==> t[i].command != x) ==> Count(t[c.writes..c.waits], x) == 0
    ensures (forall i :: 0 <= i < c.lock ==> t[i].command != x) ==> Count(t[..c.lock], x) == 0
    ensures (forall i :: c.waits <= i < |t| ==> t[i].command != x) ==> Count(t[c.waits..], x) == 0
  {
    CountBound(t[..c.lock], x);
    CountBound(t[c.lock..c.writes], x);
    CountBound(t[c.writes..c.waits], x);
    CountBound(t[c.waits..], x);
  }

  /** What is sent in each phase. */
  ghost predicate Sends(t: seq<Exchange>, c: Cuts, param: int, data: seq<byte>)
    requires c.lock <= c.writes <= c.waits <= |t|
  {
    && (forall i :: 0 <= i < c.lock ==> t[i].command == LockCommand(i))
    && (forall i :: c.lock <= i < c.writes ==> t[i].command == Set(param, data))
    && (forall i :: c.writes <= i < c.waits ==> t[i].command == Get(param))
    && (forall i :: c.waits <= i < |t| ==>
          t[i].command in {Set(SET_IN_PROGRESS, [COMMIT]), Set(SET_IN_PROGRESS, [UNLOCK])})
  }

  lemma DataCounts(t: seq<Exchange>, c: Cuts, param: int, data: seq<byte>)
    requires c.lock <= c.writes <= c.waits <= |t| && Sends(t, c, param, data) && param != SET_IN_PROGRESS
    ensures Count(t, Set(param, data)) <= c.writes - c.lock && Count(t, Get(param)) <= c.waits - c.writes
  {
    CountPhases(t, c, Set(param, data));
    PhaseCounts(t, c, Set(param, data));
    CountPhases(t, c, Get(param));
    PhaseCounts(t, c, Get(param));
  }

  lemma LockCount(t: seq<Exchange>, c: Cuts, param: int)
    requires c.lock <= c.writes <= c.waits <= |t| && c.lock <= 2 * LOCK_WRITES + 1
    requires exists data :: Sends(t, c, param, data) && param != SET_IN_PROGRESS
    ensures Count(t, Set(SET_IN_PROGRESS, [LOCK])) <= LOCK_WRITES
  {
    CountPhases(t, c, Set(SET_IN_PROGRESS, [LOCK]));
    PhaseCounts(t, c, Set(SET_IN_PROGRESS, [LOCK]));
    CountLocks(t[..c.lock], c.lock);
    assert t[..c.lock][..c.lock] == t[..c.lock];
  }

  lemma RunCommands(t: seq<Exchange>, c: Cuts, param: int, data: seq<byte>, ok: bool)
    requires Run(t, c, param, data, ok)
    ensures Sends(t, c, param, data)
    ensures 1 <= c.lock <= 2 * LOCK_WRITES + 1 && c.writes - c.lock <= RETRIES + 1 && c.waits - c.writes <= RETRIES + 1
  {
    forall i | 0 <= i < c.lock ensures t[i].command == LockCommand(i) {
      assert t[i] == t[..c.lock][i];
    }
    forall i | c.lock <= i < c.writes ensures t[i].command == Set(param, data) {
      assert t[i] == t[c.lock..c.writes][i - c.lock];
    }
    forall i | c.writes <= i < c.waits ensures t[i].command == Get(param) {
      assert t[i] == t[c.writes..c.waits][i - c.writes];
    }
  }

  /** Whatever the device does, a run is over after 31 exchanges and at most 11 writes and 11
      read-backs of the parameter; its last two commands are commit and unlock. */
  lemma RunBounded(t: seq<Exchange>, c: Cuts, param: int, data: seq<byte>, ok: bool)
    requires Run(t, c, param, data, ok)
    ensures 3 <= |t| <= 31
    ensures param != SET_IN_PROGRESS ==> Count(t, Set(param, data)) <= 11 && Count(t, Get(param)) <= 11
    ensures param != SET_IN_PROGRESS ==> Count(t, Set(SET_IN_PROGRESS, [LOCK])) <= LOCK_WRITES
    ensures t[|t| - 2].command == Set(SET_IN_PROGRESS, [COMMIT]) && t[|t| - 1].command == Set(SET_IN_PROGRESS, [UNLOCK])
  {
    RunCommands(t, c, param, data, ok);
    if param != SET_IN_PROGRESS {
      DataCounts(t, c, param, data);
      LockCount(t, c, param);
    }
  }

  /** 0 comes back exactly if some read-back between the first data write and the commit held the
      requested data. */
  lemma RunConfirms(t: seq<Exchange>, c: Cuts, param: int, data: seq<byte>, ok: bool)
    requires Run(t, c, param, data, ok)
    ensures ok <==> exists i, j :: c.lock <= i < j < c.waits && t[i].command == Set(param, data)
                                   && t[j].command == Get(param) && Matches(t[j].reply, data)
  {
    RunCommands(t, c, param, data, ok);
    var (writes, waits) := (t[c.lock..c.writes], t[c.writes..c.waits]);
    if ok {
      assert waits[|waits| - 1] == t[c.waits - 1] && writes[0] == t[c.lock];
    }
    if i, j :| && c.lock <= i < j < c.waits && t[i].command == Set(param, data)
               && t[j].command == Get(param) && Matches(t[j].reply, data) {
      assert j >= c.writes && t[j] == waits[j - c.writes];
    }
  }

  // ----- the description leaves no choice

  ghost predicate Answers(t: seq<Exchange>, env: nat -> Reply) {
    forall i: nat :: i < |t| ==> t[i].reply == env(i)
  }

  ghost predicate Agree(a: seq<Exchange>, b: seq<Exchange>) {
    forall i :: 0 <= i < |a| && i < |b| ==> a[i].reply == b[i].reply
  }

  lemma Extends(a: seq<Exchange>, b: seq<Exchange>)
    requires |a| <= |b| && Agree(a, b)
    requires forall i :: 0 <= i < |a| ==> a[i].command == b[i].command
    ensures a == b[..|a|]
  {
    forall i | 0 <= i < |a| ensures a[i] == b[i] {
    }
  }

  lemma LockUnique(a: seq<Exchange>, b: seq<Exchange>)
    requires |a| <= |b| && LockPhase(a) && LockPhase(b) && Agree(a, b)
    ensures a == b
  {
    assert a[|a| - 1].reply == b[|a| - 1].reply;
    Extends(a, b);
  }

  lemma WriteUnique(a: seq<Exchange>, b: seq<Exchange>, param: int, data: seq<byte>)
    requires |a| <= |b| && WritePhase(a, param, data) && WritePhase(b, param, data) && Agree(a, b)
    ensures a == b
  {
    assert a[|a| - 1].reply == b[|a| - 1].reply;
    Extends(a, b);
  }

  lemma WaitUnique(a: seq<Exchange>, b: seq<Exchange>, param: int, data: seq<byte>)
    requires |a| <= |b| && WaitPhase(a, param, data) && WaitPhase(b, param, data) && Agree(a, b)
    ensures a == b
  {
    assert a[|a| - 1].reply == b[|a| - 1].reply;
    Extends(a, b);
  }

  lemma SliceAgree(t: seq<Exchange>, u: seq<Exchange>, from: nat, m: nat, n: nat, env: nat -> Reply)
    requires Answers(t, env) && Answers(u, env) && from <= m <= |t| && from <= n <= |u|
    ensures Agree(t[from..m], u[from..n]) && Agree(u[from..n], t[from..m])
  {
    forall i | 0 <= i < m - from && i < n - from ensures t[from..m][i].reply == u[from..n][i].reply {
      assert t[from..m][i] == t[from + i] && u[from..n][i] == u[from + i];
    }
  }

  lemma LockCut(t: seq<Exchange>, u: seq<Exchange>, c: Cuts, d: Cuts, param: int, data: seq<byte>,
                ok: bool, ok': bool, env: nat -> Reply)
    requires Run(t, c, param, data, ok) && Run(u, d, param, data, ok') && Answers(t, env) && Answers(u, env)
    ensures c.lock == d.lock && t[..c.lock] == u[..c.lock]
  {
    SliceAgree(t, u, 0, c.lock, d.lock, env);
    assert t[0..c.lock] == t[..c.lock] && u[0..d.lock] == u[..d.lock];
    if c.lock <= d.lock {
      LockUnique(t[..c.lock], u[..d.lock]);
    } else {
      LockUnique(u[..d.lock], t[..c.lock]);
    }
  }

  lemma WriteCut(t: seq<Exchange>, u: seq<Exchange>, c: Cuts, d: Cuts, param: int, data: seq<byte>,
                 ok: bool, ok': bool, env: nat -> Reply)
    requires Run(t, c, param, data, ok) && Run(u, d, param, data, ok') && Answers(t, env) && Answers(u, env)
    requires c.lock == d.lock
    ensures c.writes == d.writes && t[c.lock..c.writes] == u[c.lock..c.writes]
  {
    var (a, b) := (t[c.lock..c.writes], u[d.lock..d.writes]);
    SliceAgree(t, u, c.lock, c.writes, d.writes, env);
    if param < 0 {
      assert c.writes == c.lock && d.writes == d.lock;
    } else if |a| <= |b| {
      WriteUnique(a, b, param, data);
    } else {
      WriteUnique(b, a, param, data);
    }
  }

  lemma WaitCut(t: seq<Exchange>, u: seq<Exchange>, c: Cuts, d: Cuts, param: int, data: seq<byte>,
                ok: bool, ok': bool, env: nat -> Reply)
    requires Run(t, c, param, data, ok) && Run(u, d, param, data, ok') && Answers(t, env) && Answers(u, env)
    requires c.lock == d.lock && c.writes == d.writes && t[c.lock..c.writes] == u[c.lock..c.writes]
    ensures c.waits == d.waits && t[c.writes..c.waits] == u[c.writes..c.waits] && ok == ok'
  {
    var (a, b) := (t[c.writes..c.waits], u[d.writes..d.waits]);
    SliceAgree(t, u, c.writes, c.waits, d.waits, env);
    if param >= 0 && !Abandoned(t[c.lock..c.writes][0].reply) {
      if |a| <= |b| {
        WaitUnique(a, b, param, data);
      } else {
        WaitUnique(b, a, param, data);
      }
    }
  }

  /** A device's behaviour determines the run: any two descriptions of it are the same. */
  lemma RunUnique(t: seq<Exchange>, u: seq<Exchange>, c: Cuts, d: Cuts, param: int, data: seq<byte>,
                  ok: bool, ok': bool, env: nat -> Reply)
    requires Run(t, c, param, data, ok) && Run(u, d, param, data, ok') && Answers(t, env) && Answers(u, env)
    ensures t == u && c == d && ok == ok'
  {
    LockCut(t, u, c, d, param, data, ok, ok', env);
    WriteCut(t, u, c, d, param, data, ok, ok', env);
    WaitCut(t, u, c, d, param, data, ok, ok', env);
    RunCommands(t, c, param, data, ok);
    RunCommands(u, d, param, data, ok');
    forall i | 0 <= i < |t| ensures t[i] == u[i] {
    }
  }

  // ----- the program

  lemma Slices(a: seq<Exchange>, b: seq<Exchange>, c: seq<Exchange>, d: seq<Exchange>)
    ensures var t := a + b + c + d;
            && t[..|a|] == a && t[|a|..|a| + |b|] == b && t[|a| + |b|..|a| + |b| + |c|] == c
            && t[|a| + |b| + |c|..] == d
  {
  }

  lemma Assemble(t: seq<Exchange>, locks: seq<Exchange>, writes: seq<Exchange>, waits: seq<Exchange>,
                 r: Reply, r': Reply, param: int, data: seq<byte>, ok: bool) returns (c: Cuts)
    requires t == locks + writes + waits + [Exchange(Set(SET_IN_PROGRESS, [COMMIT]), r)]
                                         + [Exchange(Set(SET_IN_PROGRESS, [UNLOCK]), r')]
    requires LockPhase(locks)
    requires param < 0 ==> writes == waits == [] && !ok
    requires param >= 0 ==> WritePhase(writes, param, data)
    requires param >= 0 && Abandoned(writes[0].reply) ==> waits == [] && !ok
    requires param >= 0 && !Abandoned(writes[0].reply) ==> WaitPhase(waits, param, data)
    requires param >= 0 && !Abandoned(writes[0].reply) ==> (ok <==> Confirmed(waits, data))
    ensures Run(t, c, param, data, ok)
  {
    c := Cuts(|locks|, |locks| + |writes|, |locks| + |writes| + |waits|);
    Slices(locks, writes, waits, t[c.waits..]);
    assert t == locks + writes + waits + t[c.waits..];
  }

  class Bmc {
    const env: nat -> Reply
    var trace: seq<Exchange>

    constructor (env: nat -> Reply)
      ensures this.env == env && trace == []
    {
      this.env, trace := env, [];
    }

    ghost predicate Valid()
      reads this
    {
      Answers(trace, env)
    }

    method SendRecv(c: Command) returns (r: Reply)
      requires Valid()
      modifies this`trace
      ensures Valid() && trace == old(trace) + [Exchange(c, r)]
    {
      r := env(|trace|);
      trace := trace + [Exchange(c, r)];
    }

    /** set_lan_param_wait. */
    method Wait(param: int, data: seq<byte>) returns (ok: bool, ghost t: seq<Exchange>)
      requires Valid()
      modifies this`trace
      ensures Valid() && trace == old(trace) + t
      ensures WaitPhase(t, param, data) && (ok <==> Confirmed(t, data))
    {
      t := [];
      var retry := RETRIES;
      ok := false;
      while !ok && retry >= 0
        invariant Valid() && trace == old(trace) + t
        invariant -1 <= retry && (!ok ==> |t| == RETRIES - retry)
        invariant forall i :: 0 <= i < |t| ==> t[i].command == Get(param)
        invariant forall i :: 0 <= i < |t| - 1 ==> !Matches(t[i].reply, data)
        invariant ok <==> Confirmed(t, data)
        invariant |t| <= RETRIES + 1
        decreases !ok, retry
      {
        var r := SendRecv(Get(param));
        t := t + [Exchange(Get(param), r)];
        if Matches(r, data) {
          ok := true;
        } else {
          retry := retry - 1;
        }
      }
    }

    /** The writes of __set_lan_param: again after 0xcc until one is taken. */
    method Write(param: int, data: seq<byte>) returns (go: bool, ghost t: seq<Exchange>)
      requires Valid()
      modifies this`trace
      ensures Valid() && trace == old(trace) + t
      ensures WritePhase(t, param, data) && (go <==> !Abandoned(t[0].reply))
    {
      var r := SendRecv(Set(param, data));
      t := [Exchange(Set(param, data), r)];
      go := r.Answer? && r.cc in {0, 0xcc, 0xff};
      if Invalid(r) {
        var retry, accepted := RETRIES, false;
        while !accepted && retry > 0
          invariant Valid() && trace == old(trace) + t && 0 <= retry <= RETRIES && |t| == RETRIES - retry + 1
          invariant |t| == 1 ==> !accepted
          invariant Invalid(t[0].reply) && accepted == (|t| > 1 && Accepted(t[|t| - 1].reply))
          invariant forall i :: 0 <= i < |t| ==> t[i].command == Set(param, data)
          invariant forall i :: 1 <= i < |t| - 1 ==> !Accepted(t[i].reply)
        {
          r := SendRecv(Set(param, data));
          t := t + [Exchange(Set(param, data), r)];
          retry := retry - 1;
          accepted := Accepted(r);
        }
      }
    }

    /** ipmi_lanp_lock. */
    method Lock() returns (ghost t: seq<Exchange>)
      requires Valid()
      modifies this`trace
      ensures Valid() && trace == old(trace) + t
      ensures LockPhase(t)
    {
      var retry := LOCK_WRITES;
      var r := SendRecv(Get(SET_IN_PROGRESS));
      t := [Exchange(Get(SET_IN_PROGRESS), r)];
      while LockState(r) !in {-1, LOCK as int} && retry > 0
        invariant Valid() && trace == old(trace) + t && 0 <= retry && |t| == 2 * (LOCK_WRITES - retry) + 1
        invariant r == t[|t| - 1].reply
        invariant forall i :: 0 <= i < |t| ==> t[i].command == LockCommand(i)
        invariant forall i :: 0 <= i < |t| - 1 && i % 2 == 0 ==> LockState(t[i].reply) !in {-1, LOCK as int}
      {
        retry := retry - 1;
        var w := SendRecv(Set(SET_IN_PROGRESS, [LOCK]));
        r := SendRecv(Get(SET_IN_PROGRESS));
        t := t + [Exchange(Set(SET_IN_PROGRESS, [LOCK]), w), Exchange(Get(SET_IN_PROGRESS), r)];
      }
    }

    /** set_lan_param, from a fresh trace; `data` fits the 32-byte message. */
    method SetLanParam(param: int, data: seq<byte>) returns (ok: bool, ghost c: Cuts)
      requires Valid() && trace == [] && |data| <= 30
      modifies this`trace
      ensures Valid() && Run(trace, c, param, data, ok)
    {
      hide Run;
      ghost var locks := Lock();
      ghost var writes, waits: seq<Exchange> := [], [];
      ok := param >= 0;
      if ok {
        ok, writes := Write(param, data);
        if ok {
          ok, waits := Wait(param, data);
        }
      }
      var r := SendRecv(Set(SET_IN_PROGRESS, [COMMIT]));
      var r' := SendRecv(Set(SET_IN_PROGRESS, [UNLOCK]));
      c := Assemble(trace, locks, writes, waits, r, r', param, data, ok);
    }
  }
}

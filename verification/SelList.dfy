/**
 Listing the system event log (section 31.5 of the IPMI v2.0 specification): all entries, the first
 `n`, or the last `n`, whose starting point is computed from the distance between two record ids.
 */
module SelList {
  import opened Bytes

  const U16 := 0x1_0000
  const END := 0xffff

  /** The record ids of a log, in order; 0 and 0xffff have a meaning of their own. */
  ghost predicate Log(ids: seq<nat>) {
    && |ids| < U16
    && (forall i :: 0 <= i < |ids| ==> 0 < ids[i] < END)
    && (forall i, j :: 0 <= i < j < |ids| ==> ids[i] != ids[j])
  }

  function Position(ids: seq<nat>, id: nat): (k: Option<nat>)
    ensures k.Some? ==> k.value < |ids| && ids[k.value] == id
  {
    if ids == [] then None
    else if ids[|ids| - 1] == id then Some(|ids| - 1)
    else Position(ids[..|ids| - 1], id)
  }

  /** The record that a request names: 0 is the first, 0xffff the last. */
  function Lookup(ids: seq<nat>, id: nat): (k: Option<nat>)
    ensures k.Some? ==> k.value < |ids|
  {
    if ids == [] then None
    else if id == 0 then Some(0)
    else if id == END then Some(|ids| - 1)
    else Position(ids, id)
  }

  function NextId(ids: seq<nat>, k: nat): (r: nat)
    requires k < |ids|
  {
    if k + 1 < |ids| then ids[k + 1] else END
  }

  /** Every record is found by its id. */
  ghost predicate Indexed(ids: seq<nat>) {
    forall k {:trigger Position(ids, ids[k])} :: 0 <= k < |ids| ==> 0 < ids[k] < END && Position(ids, ids[k]) == Some(k)
  }

  lemma {:induction false} Finds(ids: seq<nat>, id: nat, k: nat)
    requires k < |ids| && ids[k] == id && forall i :: k < i < |ids| ==> ids[i] != id
    ensures Position(ids, id) == Some(k)
    decreases |ids|
  {
    if k < |ids| - 1 {
      Finds(ids[..|ids| - 1], id, k);
    }
  }

  lemma LogIndexed(ids: seq<nat>)
    requires Log(ids)
    ensures Indexed(ids)
  {
    forall k | 0 <= k < |ids| ensures Position(ids, ids[k]) == Some(k) {
      Finds(ids, ids[k], k);
    }
  }

  /** Which record a loop that is about to ask for `id` stands at. */
  ghost predicate At(ids: seq<nat>, id: nat, k: nat) {
    if k < |ids| then id != END && Lookup(ids, id) == Some(k) else id == END || Lookup(ids, id) == None
  }

  lemma LookupNext(ids: seq<nat>, k: nat)
    requires Indexed(ids) && k < |ids|
    ensures At(ids, NextId(ids, k), k + 1) && NextId(ids, k) != 0
  {
    assert k + 1 < |ids| ==> Position(ids, ids[k + 1]) == Some(k + 1);
  }

  // ----- what is listed

  predicate Twice(glitch: nat -> bool, t: nat) {
    glitch(t) && glitch(t + 1)
  }

  /** The listing loop at index `k` with `listed` so far; `glitch` tells which requests, counted by
      `t`, come back with next id 0, after which each is tried once more. */
  function From(ids: seq<nat>, k: nat, count: int, t: nat, glitch: nat -> bool, listed: seq<nat>): (r: seq<nat>)
    requires k <= |ids|
    decreases |ids| - k
  {
    if k == |ids| || Twice(glitch, t) then listed
    else
      var more := listed + [ids[k]];
      if |more| == count then more else From(ids, k + 1, count, t + if glitch(t) then 2 else 1, glitch, more)
  }

  /** The id listed first for the last -`count` of `entries`, counted back from `last` in steps of
      the distance from `first` to `next`. */
  function Counted(entries: nat, next: nat, first: nat, last: nat, count: int): (id: nat)
    ensures id < U16
  {
    var (n: int, delta: int) := (entries, next - first);
    var c := if -count > n then -n else count;
    (last + c * delta + delta) % U16
  }

  /** The id to start from. */
  function Start(ids: seq<nat>, count: int): (id: nat)
    requires ids != []
    ensures count < 0 ==> id < U16
  {
    if count >= 0 then 0 else Counted(|ids|, NextId(ids, 0), ids[0], ids[|ids| - 1], count)
  }

  /** The requests before the listing: log information and a reservation, and for the last entries the
      information again and the two entries that fix the starting point. */
  function Before(count: int): (t: nat) {
    if count < 0 then 5 else 2
  }

  /** What is listed from an id on. */
  function ListedFrom(ids: seq<nat>, id: nat, count: int, glitch: nat -> bool): (r: seq<nat>) {
    if id == END || Lookup(ids, id).None? then []
    else From(ids, Lookup(ids, id).value, count, Before(count), glitch, [])
  }

  /** What is listed once the starting point is known. */
  function Listed(ids: seq<nat>, count: int, glitch: nat -> bool): (r: seq<nat>) {
    if ids == [] then [] else ListedFrom(ids, Start(ids, count), count, glitch)
  }

  function Fewer(a: nat, b: nat): (r: nat) {
    if a < b then a else b
  }

  /** No request fails twice in a row. */
  ghost predicate Steady(glitch: nat -> bool) {
    forall t: nat :: !Twice(glitch, t)
  }

  /** How many more entries are wanted from index `k` with `n` listed. */
  function Wanted(ids: seq<nat>, k: nat, n: nat, count: int): (r: nat)
    requires k <= |ids|
  {
    if count > n then Fewer(count - n, |ids| - k) else |ids| - k
  }

  /** A listing never skips, repeats or reorders; if no request fails twice in a row it is complete. */
  lemma {:induction false} FromIsStretch(ids: seq<nat>, k: nat, count: int, t: nat, glitch: nat -> bool,
                                         listed: seq<nat>)
    returns (j: nat)
    requires k <= |ids|
    ensures j <= Wanted(ids, k, |listed|, count) && (Steady(glitch) ==> j == Wanted(ids, k, |listed|, count))
    ensures From(ids, k, count, t, glitch, listed) == listed + ids[k..k + j]
    decreases |ids| - k
  {
    j := 0;
    if k < |ids| && !Twice(glitch, t) {
      var more := listed + [ids[k]];
      if |more| != count {
        j := FromIsStretch(ids, k + 1, count, t + if glitch(t) then 2 else 1, glitch, more);
      }
      assert more + ids[k + 1..k + 1 + j] == listed + ids[k..k + 1 + j];
      j := j + 1;
    }
  }

  /** "first n", or all of them for 0. */
  lemma FirstListed(ids: seq<nat>, count: nat, glitch: nat -> bool)
    requires Log(ids) && Steady(glitch)
    ensures Listed(ids, count, glitch) == if count == 0 then ids else ids[..Fewer(count, |ids|)]
  {
    if ids != [] {
      var j := FromIsStretch(ids, 0, count, Before(count), glitch, []);
    }
  }

  /** Where "last n" starts, counted back from the last record. */
  function Back(ids: seq<nat>, m: nat): (r: int)
    requires ids != []
    ensures 0 <= r < U16
  {
    (ids[|ids| - 1] - (m - 1) * (NextId(ids, 0) - ids[0])) % U16
  }

  lemma StartIsBack(ids: seq<nat>, n: int)
    requires ids != [] && n > 0
    ensures Start(ids, -n) == Back(ids, Fewer(n, |ids|))
  {
    var m: int, delta := Fewer(n, |ids|), NextId(ids, 0) - ids[0];
    assert -m * delta + delta == -((m - 1) * delta);
  }

  /** Without a limit the listing is everything from the record found, if one is. */
  lemma SuffixListed(ids: seq<nat>, n: int, glitch: nat -> bool) returns (k: nat)
    requires ids != [] && Steady(glitch) && n > 0
    ensures k <= |ids| && Listed(ids, -n, glitch) == ids[k..]
    ensures var id := Start(ids, -n);
            k == if id == END || Lookup(ids, id).None? then |ids| else Lookup(ids, id).value
  {
    var id := Start(ids, -n);
    k := if id == END || Lookup(ids, id).None? then |ids| else Lookup(ids, id).value;
    if k < |ids| {
      var j := FromIsStretch(ids, k, -n, Before(-n), glitch, []);
      assert [] + ids[k..] == ids[k..];
    }
  }

  lemma LookupIs(ids: seq<nat>, id: nat, k: nat)
    requires Indexed(ids) && k < |ids|
    ensures (id != END && Lookup(ids, id) == Some(k)) <==> id == ids[k] || (id == 0 && k == 0)
  {
    assert Position(ids, ids[k]) == Some(k);
  }

  lemma SameSuffix(ids: seq<nat>, a: nat, b: nat)
    requires a <= |ids| && b <= |ids|
    ensures ids[a..] == ids[b..] <==> a == b
  {
    assert a != b ==> |ids[a..]| != |ids[b..]|;
  }

  /** "last n": exactly when it lists the last min(n, entries) records, each once and in order.  A
      computed id of 0 is taken for the first record. */
  lemma LastListed(ids: seq<nat>, n: int, glitch: nat -> bool)
    requires Log(ids) && ids != [] && Steady(glitch) && n > 0
    ensures var m := Fewer(n, |ids|);
            Listed(ids, -n, glitch) == ids[|ids| - m..]
            <==> Back(ids, m) == ids[|ids| - m] || (Back(ids, m) == 0 && m == |ids|)
  {
    var m := Fewer(n, |ids|);
    StartIsBack(ids, n);
    LogIndexed(ids);
    LookupIs(ids, Back(ids, m), |ids| - m);
    var k := SuffixListed(ids, n, glitch);
    SameSuffix(ids, k, |ids| - m);
  }

  /** Every id is the same distance behind the one before it, modulo 65536, as the second is behind
      the first. */
  ghost predicate Spaced(ids: seq<nat>) {
    forall i {:trigger ids[i + 1]} :: 0 <= i < |ids| - 1 ==> (ids[i + 1] - ids[i]) % U16 == (ids[1] - ids[0]) % U16
  }

  lemma ModShift(x: int, k: int)
    ensures (x + U16 * k) % U16 == x % U16
  {
  }

  lemma ModDifference(a: int, b: int, x: int, y: int)
    requires a % U16 == x % U16 && b % U16 == y % U16
    ensures (a - b) % U16 == (x - y) % U16
  {
    var k := (a / U16 - x / U16) - (b / U16 - y / U16);
    assert a == U16 * (a / U16) + a % U16 && x == U16 * (x / U16) + x % U16;
    assert b == U16 * (b / U16) + b % U16 && y == U16 * (y / U16) + y % U16;
    assert a - b == (x - y) + U16 * k;
    ModShift(x - y, k);
  }

  /** Counting back over one more record. */
  lemma BackStep(ids: seq<nat>, m: nat)
    requires ids != [] && m > 0
    ensures (Back(ids, m) - Back(ids, m + 1)) % U16 == (NextId(ids, 0) - ids[0]) % U16
  {
    var last, delta := ids[|ids| - 1], NextId(ids, 0) - ids[0];
    assert m * delta == (m - 1) * delta + delta;
    ModDifference(Back(ids, m), Back(ids, m + 1), last - (m - 1) * delta, last - m * delta);
  }

  lemma BackOne(ids: seq<nat>)
    requires ids != [] && ids[|ids| - 1] < U16
    ensures Back(ids, 1) == ids[|ids| - 1]
  {
  }

  lemma SameStep(a: int, b: int, c: int)
    requires (a - b) % U16 == (a - c) % U16 && 0 <= b < U16 && 0 <= c < U16
    ensures b == c
  {
  }

  /** In a spaced log, counting back hits every record. */
  lemma {:induction false} BackHits(ids: seq<nat>, m: nat)
    requires Spaced(ids) && 1 <= m <= |ids| && forall i :: 0 <= i < |ids| ==> ids[i] < U16
    ensures Back(ids, m) == ids[|ids| - m]
    decreases m
  {
    hide Back;
    if m == 1 {
      BackOne(ids);
    } else {
      BackHits(ids, m - 1);
      BackStep(ids, m - 1);
      var i := |ids| - m;
      assert (ids[i + 1] - ids[i]) % U16 == (ids[1] - ids[0]) % U16;
      SameStep(ids[i + 1], Back(ids, m), ids[i]);
    }
  }

  /** What a caller wants of "last n". */
  ghost predicate LastRight(ids: seq<nat>, n: int, glitch: nat -> bool)
    requires n > 0
  {
    Listed(ids, -n, glitch) == ids[|ids| - Fewer(n, |ids|)..]
  }

  lemma HitsRight(ids: seq<nat>, n: int, glitch: nat -> bool)
    requires Log(ids) && ids != [] && Steady(glitch) && 0 < n < |ids|
    ensures LastRight(ids, n, glitch) <==> Back(ids, n) == ids[|ids| - n]
  {
    LastListed(ids, n, glitch);
  }

  /** Two lists that are right show the step between their first records. */
  lemma RightSteps(ids: seq<nat>, i: nat, glitch: nat -> bool)
    requires Log(ids) && Steady(glitch) && 0 < i < |ids| - 1
    requires LastRight(ids, |ids| - i - 1, glitch) && LastRight(ids, |ids| - i, glitch)
    ensures (ids[i + 1] - ids[i]) % U16 == (ids[1] - ids[0]) % U16
  {
    hide Back, LastRight;
    var m := |ids| - i - 1;
    HitsRight(ids, m, glitch);
    HitsRight(ids, m + 1, glitch);
    BackStep(ids, m);
  }

  lemma SpacedRight(ids: seq<nat>, n: int, glitch: nat -> bool)
    requires Log(ids) && Steady(glitch) && Spaced(ids) && n > 0
    ensures LastRight(ids, n, glitch)
  {
    if ids != [] {
      BackHits(ids, Fewer(n, |ids|));
      LastListed(ids, n, glitch);
    }
  }

  /** Exactly when "last n" is right for every n: if the log is spaced, a single record included. */
  lemma LastCondition(ids: seq<nat>, glitch: nat -> bool)
    requires Log(ids) && Steady(glitch)
    ensures (forall n: int | n > 0 :: LastRight(ids, n, glitch)) <==> Spaced(ids)
  {
    hide LastRight;
    if Spaced(ids) {
      forall n: int | n > 0 ensures LastRight(ids, n, glitch) {
        SpacedRight(ids, n, glitch);
      }
    } else if forall n: int | n > 0 :: LastRight(ids, n, glitch) {
      forall i | 0 <= i < |ids| - 1 ensures (ids[i + 1] - ids[i]) % U16 == (ids[1] - ids[0]) % U16 {
        if i > 0 {
          assert LastRight(ids, |ids| - i - 1, glitch) && LastRight(ids, |ids| - i, glitch);
          RightSteps(ids, i, glitch);
        }
      }
    }
  }

  /** Deleting from the middle of a log defeats "last n": the ids 1, 2, 4 asked for the last two. */
  lemma GapMisleads(glitch: nat -> bool)
    requires Steady(glitch)
    ensures Log([1, 2, 4]) && Listed([1, 2, 4], -2, glitch) == []
  {
    var ids := [1, 2, 4];
    assert Start(ids, -2) == 3;
  }

  // ----- with every request that can fail

  /** What becomes of a request: Zero is an entry that comes with next id 0. */
  datatype Reply = Fine | Zero | Lost

  function Glitch(env: nat -> Reply): (glitch: nat -> bool) {
    (t: nat) => env(t) != Fine
  }

  /** Refused is a returned -1; Undefined: the starting point is computed from a record never read. */
  datatype Outcome = Shown(listed: seq<nat>) | Refused | Undefined

  /** The last entries, once log information and reservation have been had.  A last entry that cannot be
      read leaves the first one in its place. */
  function ShowLast(ids: seq<nat>, count: int, env: nat -> Reply): (r: Outcome)
    requires ids != []
  {
    if env(2) == Lost then Refused
    else if env(3) == Lost then Undefined
    else
      var next := if env(3) == Zero then 0 else NextId(ids, 0);
      var last := if env(4) == Lost then ids[0] else ids[|ids| - 1];
      Shown(ListedFrom(ids, Counted(|ids|, next, ids[0], last, count), count, Glitch(env)))
  }

  /** __ipmi_sel_savelist_entries. */
  function Show(ids: seq<nat>, count: int, env: nat -> Reply): (r: Outcome) {
    if env(0) == Lost then Refused
    else if ids == [] then Shown([])
    else if env(1) == Lost then Refused
    else if count < 0 then ShowLast(ids, count, env)
    else Shown(ListedFrom(ids, 0, count, Glitch(env)))
  }

  /** If the requests before it succeed, the listing is the one characterised above. */
  lemma ShowsListed(ids: seq<nat>, count: int, env: nat -> Reply)
    requires forall t: nat :: t < Before(count) ==> env(t) == Fine
    ensures Show(ids, count, env) == Shown(Listed(ids, count, Glitch(env)))
  {
    assert env(0) == env(1) == Fine && (count < 0 ==> env(2) == env(3) == env(4) == Fine);
  }

  // ----- the program

  class Sel {
    const ids: seq<nat>
    const env: nat -> Reply
    var listed: seq<nat>
    var requests: nat
    var evt: Option<nat>          // the record id in the caller's buffer, None before it is filled

    constructor (ids: seq<nat>, env: nat -> Reply)
      ensures this.ids == ids && this.env == env && listed == [] && requests == 0 && evt == None
    {
      this.ids, this.env, listed, requests, evt := ids, env, [], 0, None;
    }

    /** A request for log information, or for a reservation. */
    method Command() returns (ok: bool)
      modifies this`requests
      ensures requests == old(requests) + 1 && (ok <==> env(old(requests)) != Lost)
    {
      ok := env(requests) != Lost;
      requests := requests + 1;
    }

    /** ipmi_sel_get_std_entry: the next id, or 0 if the entry could not be had or says so. */
    method GetEntry(id: nat) returns (next: nat)
      modifies this`requests, this`evt
      ensures requests == old(requests) + 1
      ensures var k, reply := Lookup(ids, id), env(old(requests));
              if k.None? || reply == Lost then next == 0 && evt == old(evt)
              else next == (if reply == Zero then 0 else NextId(ids, k.value)) && evt == Some(ids[k.value])
    {
      var k, reply := Lookup(ids, id), env(requests);
      next := 0;
      if k.Some? && reply != Lost {
        evt := Some(ids[k.value]);
        if reply == Fine {
          next := NextId(ids, k.value);
        }
      }
      requests := requests + 1;
    }

    /** The listing loop from `start`. */
    method ListFrom(start: nat, count: int)
      requires Indexed(ids) && requests == Before(count) && listed == []
      modifies this`requests, this`listed, this`evt
      ensures listed == ListedFrom(ids, start, count, Glitch(env))
    {
      hide Lookup;
      ghost var glitch := Glitch(env);
      var nextId, more := start, true;
      ghost var k := StartsAt(start);
      ghost var spec := From(ids, k, count, requests, glitch, []);
      while more && nextId != END
        invariant k <= |ids|
        invariant more ==> At(ids, nextId, k) && From(ids, k, count, requests, glitch, listed) == spec
        invariant !more ==> listed == spec
        decreases more, |ids| - k
      {
        nextId := ListEntry(nextId, k);
        more := nextId != 0 && |listed| != count;
        if nextId != 0 {
          k := k + 1;
        }
      }
    }

    ghost function StartsAt(start: nat): (k: nat)
      ensures k <= |ids| && At(ids, start, k)
      ensures forall count, glitch ::
                ListedFrom(ids, start, count, glitch) == From(ids, k, count, Before(count), glitch, [])
    {
      if start == END || Lookup(ids, start).None? then |ids| else Lookup(ids, start).value
    }

    /** One entry: read, tried again if that fails, and listed. */
    method ListEntry(currId: nat, ghost k: nat) returns (nextId: nat)
      requires Indexed(ids) && k <= |ids| && At(ids, currId, k) && currId != END
      modifies this`requests, this`listed, this`evt
      ensures nextId == 0 <==> k == |ids| || Twice(Glitch(env), old(requests))
      ensures nextId == 0 ==> listed == old(listed)
      ensures nextId != 0 ==> At(ids, nextId, k + 1) && listed == old(listed) + [ids[k]]
      ensures nextId != 0 ==> requests == old(requests) + if Glitch(env)(old(requests)) then 2 else 1
    {
      if k < |ids| {
        LookupNext(ids, k);
      }
      nextId := GetEntry(currId);
      if nextId == 0 {
        nextId := GetEntry(currId);
      }
      if nextId != 0 {
        listed := listed + [evt.value];
      }
    }

    /** The last entries: the information again, the two entries that fix the starting point, the loop. */
    method ListLast(count: int) returns (rc: int, defined: bool)
      requires Indexed(ids) && ids != [] && count < 0 && requests == 2 && listed == [] && evt == None
      modifies this`requests, this`listed, this`evt
      ensures ShowLast(ids, count, env)
           == if !defined then Undefined else if rc < 0 then Refused else Shown(listed)
    {
      rc, defined := 0, true;
      var ok := Command();
      if !ok {
        return -1, true;
      }
      var next := GetEntry(0);
      if evt.None? {
        return 0, false;
      }
      var first := evt.value;
      var end := GetEntry(END);
      ListFrom(Counted(|ids|, next, first, evt.value, count), count);
    }

    /** __ipmi_sel_savelist_entries.  `defined` is false if the starting point would be computed from a
        record that was never read. */
    method List(count: int) returns (rc: int, defined: bool)
      requires Log(ids) && requests == 0 && listed == [] && evt == None
      modifies this`requests, this`listed, this`evt
      ensures Show(ids, count, env) == if !defined then Undefined else if rc < 0 then Refused else Shown(listed)
    {
      LogIndexed(ids);
      rc, defined := 0, true;
      var ok := Command();
      if !ok {
        return -1, true;
      }
      if ids == [] {
        return;
      }
      ok := Command();
      if !ok {
        return -1, true;
      }
      if count < 0 {
        rc, defined := ListLast(count);
      } else {
        ListFrom(0, count);
      }
    }
  }
}

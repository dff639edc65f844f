/**
 The repository reader in the form of the program: the global list, the global iterator and the
 static request size are fields that the loops update.  Each method is tied to the function of
 SdrReader or SdrCache it runs; ghost fields name the positions passed and lost.
 */
module SdrClient {
  import opened Bytes
  import opened SdrReader
  import opened SdrCache

  /** A turn appends at most one entry. */
  lemma TurnGrows(repo: seq<Record>, q: Option<Query>, c: Cache)
    requires c.itr.Some?
    ensures var list := Turn(repo, q, c).c.list;
            list == c.list || (|list| == |c.list| + 1 && list[..|c.list|] == c.list)
  {
  }

  lemma MatchesGrow(list: seq<Entry>, longer: seq<Entry>, q: Query)
    requires |longer| == |list| + 1 && longer[..|list|] == list
    ensures AllMatches(longer, q) == AllMatches(list, q) + if Matches(q, longer[|list|]) then [longer[|list|]] else []
  {
  }

  class Client {
    const repo: seq<Record>      // what the device holds
    var list: seq<Entry>
    var itr: Option<nat>
    var maxReadLen: nat
    var script: seq<Event>
    ghost var refused: seq<nat>
    ghost var pos: nat
    ghost var lost: set<nat>

    constructor (repo: seq<Record>, script: seq<Event>)
      ensures this.repo == repo && Now() == Fresh(script)
    {
      this.repo, this.script := repo, script;
      list, itr, maxReadLen := [], None, ENTIRE_RECORD;
      refused, pos, lost := [], 0, {};
    }

    ghost function Link(): (r: Wire)
      reads this
    {
      Wire(maxReadLen, script, refused)
    }

    ghost function Now(): (r: Cache)
      reads this
    {
      Cache(list, itr, pos, lost, Link())
    }

    method SendRecv() returns (e: Event)
      requires script != []
      modifies this`script
      ensures e == old(script)[0] && script == old(script)[1..]
    {
      e := script[0];
      script := script[1..];
    }

    /** ipmi_sdr_get_header: up to five tries. */
    method GetHeader(present: bool) returns (result: HeaderResult)
      modifies this`script
      ensures (result, Link()) == SdrReader.GetHeader(present, TRIES, old(Link()))
    {
      var try := 0;
      while try < TRIES
        invariant 0 <= try <= TRIES
        invariant SdrReader.GetHeader(present, TRIES - try, Link()) == SdrReader.GetHeader(present, TRIES, old(Link()))
      {
        if script == [] {
          return Waiting;
        }
        var e := SendRecv();
        if e == Cancelled(false) {
          return Null;
        }
        if e == Serve && present {
          return Got;
        }
        try := try + 1;
      }
      result := Null;
    }

    /** ipmi_sdr_get_next_header: the iterator moves on only with a header. */
    method GetNextHeader() returns (h: Header)
      requires itr.Some?
      modifies this`script, this`itr, this`pos
      ensures (h, Now()) == NextHeader(repo, old(Now()))
    {
      if itr.value == END {
        return Stop;
      }
      var p := Find(repo, itr.value);
      var result := GetHeader(p.Some?);
      if result == Waiting {
        return Wait;
      }
      if result == Null || repo[p.value].body == [] {
        return Stop;
      }
      itr := Some(Key(repo, p.value + 1));
      pos := p.value + 1;
      h := Found(p.value);
    }

    /** ipmi_sdr_get_record. */
    method GetRecord(rec: Record) returns (result: ReadResult)
      modifies this`script, this`maxReadLen, this`refused
      ensures (result, Link()) == SdrReader.GetRecord(rec, old(Link()))
    {
      var len := |rec.body|;
      if len < 1 {
        return NoBody;
      }
      var i: nat, data: seq<byte> := 0, [];
      result := Body(data);
      while i < len && result.Body?
        invariant result.Body? ==> Read(rec, i, data, Link()) == Read(rec, 0, [], old(Link()))
        invariant !result.Body? ==> (result, Link()) == Read(rec, 0, [], old(Link()))
        decreases result.Body?, |script|
      {
        if script == [] {
          result := Unfinished;
        } else {
          result, i, data := GetChunk(rec, i, data);
        }
      }
      if result.Body? {
        result := Body(data);
      }
    }

    /** One request of the read loop. */
    method GetChunk(rec: Record, i: nat, data: seq<byte>) returns (result: ReadResult, i': nat, data': seq<byte>)
      requires i < |rec.body| && script != []
      modifies this`script, this`maxReadLen, this`refused
      ensures |script| < |old(script)|
      ensures SdrReader.Exchange(rec, i, data, old(Link()))
           == if result.Body? then Goes(i', data', Link()) else Ends(result, Link())
    {
      result, i', data' := Body([]), i, data;
      var length := if |rec.body| - i < maxReadLen then |rec.body| - i else maxReadLen;
      var offset: byte := (i + HEADER) % 256;
      var e := SendRecv();
      match e {
        case TooMany =>
          refused := refused + [length];
          if maxReadLen < 2 {
            result := Undefined;
          } else {
            maxReadLen := maxReadLen / 2 - 1;
          }
        case Cancelled(renewed) =>
          if !renewed {
            result := NoBody;
          }
        case Serve =>
          data' := data + Chunk(rec, offset, length);
          i' := i + maxReadLen;
        case _ =>
          result := NoBody;
      }
    }

    /** ipmi_sdr_start, as one exchange. */
    method Start() returns (ready: Option<bool>)
      modifies this`script, this`itr
      ensures (ready, Now()) == Open(old(Now()))
    {
      if itr.Some? {
        return Some(true);
      }
      if script == [] {
        return None;
      }
      var e := SendRecv();
      if e == Serve {
        itr := Some(0);
      }
      ready := Some(e == Serve);
    }

    /** One turn of a "keep looking" loop: `out` is None when the loop goes on. */
    method LoadNext(q: Option<Query>) returns (out: Option<Outcome>)
      requires itr.Some?
      modifies this
      ensures itr.Some?
      ensures (if out == None then On(Now()) else Over(out.value, Now())) == Turn(repo, q, old(Now()))
    {
      var id := itr.value;
      var h := GetNextHeader();
      match h {
        case Stop => return Some(End);
        case Wait => return Some(Pending);
        case Found(p) =>
          var rec := GetRecord(repo[p]);
          match rec {
            case Undefined => return Some(Broken);
            case Unfinished => return Some(Pending);
            case NoBody => lost := lost + {p};
            case Body(b) =>
              var e := Entry(id, repo[p].kind, b);
              if Supported(e.kind) {
                list := list + [e];
                if q.Some? && Matches(q.value, e) {
                  return Some(Hit(e));
                }
              }
          }
      }
      out := None;
    }

    /** ipmi_sdr_find_sdr_bynumtype and _byid. */
    method FindFirst(q: Query) returns (ans: Answer)
      modifies this
      ensures (ans, Now()) == Perform(repo, First(q), old(Now()))
    {
      var ready := Start();
      if ready != Some(true) {
        return if ready == None then NoAnswer else Failed;
      }
      ghost var start := Now();
      var k := 0;
      while k < |list|
        invariant 0 <= k <= |list| && Now() == start
        invariant FirstMatch(list[k..], q) == FirstMatch(list, q)
      {
        if Matches(q, list[k]) {
          return One(Some(list[k]));
        }
        k := k + 1;
      }
      var out := None;
      while out == None
        invariant itr.Some?
        invariant out == None ==> Fill(repo, Some(q), Now()) == Fill(repo, Some(q), start)
        invariant out != None ==> (out.value, Now()) == Fill(repo, Some(q), start)
        decreases out == None, |script|
      {
        out := LoadNext(Some(q));
      }
      match out.value {
        case Hit(e) => ans := One(Some(e));
        case End => ans := One(None);
        case _ => ans := NoAnswer;
      }
    }

    /** ipmi_sdr_find_sdr_bysensortype, _byentity and _bytype: what is cached, then the rest. */
    method FindAll(q: Query) returns (ans: Answer)
      modifies this
      ensures (ans, Now()) == Perform(repo, All(q), old(Now()))
    {
      var ready := Start();
      if ready != Some(true) {
        return if ready == None then NoAnswer else Failed;
      }
      ghost var start := Now();
      var found := CheckCached(q);
      var out := None;
      while out == None
        invariant itr.Some? && found == AllMatches(list, q)
        invariant out == None ==> Fill(repo, None, Now()) == Fill(repo, None, start)
        invariant out != None ==> (out.value, Now()) == Fill(repo, None, start)
        decreases out == None, |script|
      {
        var n := |list|;
        TurnGrows(repo, None, Now());
        ghost var before := list;
        out := LoadNext(None);
        if |list| > n {
          MatchesGrow(before, list, q);
          if Matches(q, list[n]) {
            found := found + [list[n]];
          }
        }
      }
      ans := if Stuck(out.value) then NoAnswer else Many(found);
    }

    /** "Check what we've already read". */
    method CheckCached(q: Query) returns (found: seq<Entry>)
      ensures found == AllMatches(list, q)
    {
      found := [];
      var k := 0;
      while k < |list|
        invariant 0 <= k <= |list|
        invariant found == AllMatches(list[..k], q)
      {
        MatchesGrow(list[..k], list[..k + 1], q);
        if Matches(q, list[k]) {
          found := found + [list[k]];
        }
        k := k + 1;
      }
      assert list[..k] == list;
    }

    /** ipmi_sdr_list_cache, and the caching part of ipmi_sdr_print_sdr. */
    method ListCache() returns (ans: Answer)
      modifies this
      ensures (ans, Now()) == Perform(repo, FillAll, old(Now()))
    {
      var ready := Start();
      if ready != Some(true) {
        return if ready == None then NoAnswer else Failed;
      }
      ghost var start := Now();
      var out := None;
      while out == None
        invariant itr.Some?
        invariant out == None ==> Fill(repo, None, Now()) == Fill(repo, None, start)
        invariant out != None ==> (out.value, Now()) == Fill(repo, None, start)
        decreases out == None, |script|
      {
        out := LoadNext(None);
      }
      ans := if Stuck(out.value) then NoAnswer else Filled;
    }
  }
}

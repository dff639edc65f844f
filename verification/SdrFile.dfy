/**
 The binary dump of the sensor data repository and the loader that fills the cache from it: five
 header bytes and the body, record after record.
 */
module SdrFile {
  import opened Bytes
  import opened SdrReader
  import opened SdrCache

  predicate KnownVersion(version: byte) {
    version in {0x51, 0x01, 0x02}
  }

  /** A record as the five header bytes can carry it. */
  ghost predicate Storable(r: Record) {
    r.id < 0x1_0000 && |r.body| <= 255
  }

  function Dump(recs: seq<Record>): (r: seq<byte>) {
    if recs == [] then [] else Full(recs[0]) + Dump(recs[1..])
  }

  datatype Loaded = Loaded(list: seq<Entry>, rc: int)

  function FileId(file: seq<byte>): (r: nat)
    requires |file| >= 2
  {
    var (lo: int, hi: int) := (file[0], file[1]);
    lo + 256 * hi
  }

  /** What stands at the front of a file: the end, or `size` bytes that add `first` to the list. */
  datatype Piece = Last(rc: int) | More(size: nat, first: seq<Entry>)

  function Front(file: seq<byte>): (p: Piece)
    ensures p.More? ==> 0 < p.size <= |file|
  {
    if file == [] then Last(0)
    else if |file| < HEADER then Last(-1)
    else if file[4] == 0 then More(HEADER, [])
    else if !KnownVersion(file[2]) || |file| < HEADER + file[4] then Last(-1)
    else
      var e := Entry(FileId(file), file[3], file[HEADER..HEADER + file[4]]);
      More(HEADER + file[4], if Supported(e.kind) then [e] else [])
  }

  /** ipmi_sdr_list_cache_fromfile: what it adds to the list, and its result. */
  function Load(file: seq<byte>): (r: Loaded)
    decreases |file|
  {
    match Front(file)
    case Last(rc) => Loaded([], rc)
    case More(size, first) => var rest := Load(file[size..]); rest.(list := first + rest.list)
  }

  /** What should come back: supported records with a body, up to the first unknown version. */
  function Expected(recs: seq<Record>): (r: Loaded) {
    if recs == [] then Loaded([], 0)
    else if recs[0].body == [] then Expected(recs[1..])
    else if !KnownVersion(recs[0].version) then Loaded([], -1)
    else
      var rest := Expected(recs[1..]);
      if Supported(recs[0].kind)
      then rest.(list := [Entry(recs[0].id, recs[0].kind, recs[0].body)] + rest.list) else rest
  }

  lemma HeaderReadBack(r: Record, rest: seq<byte>)
    requires Storable(r)
    ensures var file := Full(r) + rest;
            && file[4] == |r.body| && file[2] == r.version && file[3] == r.kind && FileId(file) == r.id
            && file[HEADER..HEADER + |r.body|] == r.body && file[HEADER + |r.body|..] == rest
  {
    var file := Full(r) + rest;
    assert file[0] == r.id % 256 && file[1] == (r.id / 256) % 256;
  }

  lemma FrontRecord(r: Record, rest: seq<byte>)
    requires Storable(r)
    ensures var shown := Supported(r.kind) && r.body != [];
            Front(Full(r) + rest) ==
              if r.body != [] && !KnownVersion(r.version) then Last(-1)
              else More(|Full(r)|, if shown then [Entry(r.id, r.kind, r.body)] else [])
  {
    HeaderReadBack(r, rest);
  }

  /** Dumping and loading gives back the same ids, kinds and bodies in the same order. */
  lemma {:induction false} LoadDump(recs: seq<Record>)
    requires forall i :: 0 <= i < |recs| ==> Storable(recs[i])
    ensures Load(Dump(recs)) == Expected(recs)
  {
    if recs != [] {
      FrontRecord(recs[0], Dump(recs[1..]));
      HeaderReadBack(recs[0], Dump(recs[1..]));
      LoadDump(recs[1..]);
    }
  }

  /** The supported records, as cache entries. */
  function Entries(recs: seq<Record>): (r: seq<Entry>) {
    if recs == [] then []
    else (if Supported(recs[0].kind) then [Entry(recs[0].id, recs[0].kind, recs[0].body)] else []) + Entries(recs[1..])
  }

  /** The loader accepts a dump exactly when every record with a body has a known version, and a
      dump without empty records then comes back whole. */
  lemma {:induction false} LoadDumpWhole(recs: seq<Record>)
    requires forall i :: 0 <= i < |recs| ==> Storable(recs[i])
    ensures Load(Dump(recs)).rc == 0
            <==> forall i :: 0 <= i < |recs| && recs[i].body != [] ==> KnownVersion(recs[i].version)
    ensures Load(Dump(recs)).rc == 0 && (forall i :: 0 <= i < |recs| ==> recs[i].body != [])
            ==> Load(Dump(recs)).list == Entries(recs)
  {
    LoadDump(recs);
    if recs != [] {
      LoadDump(recs[1..]);
      LoadDumpWhole(recs[1..]);
      assert forall i :: 0 < i < |recs| ==> recs[i] == recs[1..][i - 1];
      assert forall i :: 0 <= i < |recs[1..]| ==> recs[1..][i] == recs[i + 1];
    }
  }

  /** Cutting a file behind its front leaves the front, and cutting it before that ends it. */
  lemma FrontCut(file: seq<byte>, n: nat)
    requires n <= |file|
    ensures Front(file[..n]).More? ==> Front(file).More? && Front(file[..n]) == Front(file)
  {
    var cut := file[..n];
    if n >= HEADER && n >= HEADER + file[4] {
      assert cut[HEADER..HEADER + file[4]] == file[HEADER..HEADER + file[4]];
    }
  }

  lemma CutBehind(file: seq<byte>, n: nat, k: nat)
    requires k <= n <= |file|
    ensures file[..n][k..] == file[k..][..n - k]
  {
  }

  lemma PrefixAfter(first: seq<Entry>, a: seq<Entry>, b: seq<Entry>)
    requires a <= b
    ensures first + a <= first + b
  {
  }

  /** A file cut short anywhere never yields anything but a prefix of the records. */
  lemma {:induction false} LoadTruncated(file: seq<byte>, n: nat)
    requires n <= |file|
    ensures Load(file[..n]).list <= Load(file).list
    decreases |file|
  {
    FrontCut(file, n);
    var front := Front(file[..n]);
    if front.More? {
      CutBehind(file, n, front.size);
      LoadTruncated(file[front.size..], n - front.size);
      PrefixAfter(front.first, Load(file[front.size..][..n - front.size]).list, Load(file[front.size..]).list);
    }
  }

  lemma DumpStep(recs: seq<Record>, i: nat, file: seq<byte>, h: seq<byte>)
    requires i < |recs|
    requires var r := recs[i]; h == [r.id % 256, (r.id / 256) % 256, r.version, r.kind, |r.body| % 256]
    ensures file + Dump(recs[i..]) == file + h + recs[i].body + Dump(recs[i + 1..])
  {
    assert recs[i..][1..] == recs[i + 1..];
    assert Dump(recs[i..]) == h + recs[i].body + Dump(recs[i + 1..]);
  }

  /** The writing half of ipmi_sdr_dump_bin. */
  method WriteDump(recs: seq<Record>) returns (file: seq<byte>)
    ensures file == Dump(recs)
  {
    file := [];
    var i := 0;
    while i < |recs|
      invariant 0 <= i <= |recs| && file + Dump(recs[i..]) == Dump(recs)
    {
      var r := recs[i];
      var h: seq<byte> := [r.id % 256, (r.id / 256) % 256, r.version, r.kind, |r.body| % 256];
      DumpStep(recs, i, file, h);
      file := file + h + r.body;
      i := i + 1;
    }
  }

  /** What the rest of a file adds to a list, its front first. */
  lemma LoadStep(list: seq<Entry>, file: seq<byte>)
    requires Front(file).More?
    ensures var p := Front(file);
            && list + Load(file).list == list + p.first + Load(file[p.size..]).list
            && Load(file).rc == Load(file[p.size..]).rc
  {
    var p := Front(file);
    Associate(list, p.first, Load(file[p.size..]).list);
  }

  lemma LoadLast(list: seq<Entry>, file: seq<byte>)
    requires Front(file).Last?
    ensures list + Load(file).list == list && Load(file).rc == Front(file).rc
  {
  }

  lemma Behind(file: seq<byte>, at: nat, k: nat)
    requires at + k <= |file|
    ensures file[at..][k..] == file[at + k..]
  {
  }

  /** ipmi_sdr_list_cache_fromfile: the global list grows, and an iterator that was not there yet is
      put at its end, whether the file was whole or not. */
  method LoadFile(file: seq<byte>, list: seq<Entry>, itr: Option<nat>)
    returns (list': seq<Entry>, itr': Option<nat>, rc: int)
    ensures list' == list + Load(file).list && rc == Load(file).rc
    ensures itr' == if itr.None? then Some(END) else itr
  {
    hide Load;
    list', itr', rc := list, if itr.None? then Some(END) else itr, 0;
    var at := 0;
    while at < |file|
      invariant 0 <= at <= |file|
      invariant rc == 0
      invariant list' + Load(file[at..]).list == list + Load(file).list
      invariant Load(file[at..]).rc == Load(file).rc
    {
      var rest := file[at..];
      if |rest| < HEADER {
        LoadLast(list', rest);
        return list', itr', -1;
      }
      var length := file[at + 4];
      if length == 0 {
        LoadStep(list', rest);
        Behind(file, at, HEADER);
        at := at + HEADER;
        continue;
      }
      if !KnownVersion(file[at + 2]) || |rest| < HEADER + length {
        LoadLast(list', rest);
        return list', itr', -1;
      }
      LoadStep(list', rest);
      Behind(file, at, HEADER + length);
      var e := Entry(FileId(rest), file[at + 3], rest[HEADER..HEADER + length]);
      at := at + HEADER + length;
      if Supported(e.kind) {
        list' := list' + [e];
      }
    }
    LoadLast(list', file[at..]);
  }
}

/** The function catalog of a loaded module: function records reached through
    `ftab`, their names in `funcnametab`, their source files through `cutab`
    and `filetab`, and the auxiliary-data slots that follow each record. */
module FuncCatalog {
  import opened Machine
  import opened Codec

  /** The fields of a `_func` record the decoder reads. `trailer` is the run of
      uint32 words in memory right after the fixed fields: the record's
      `npcdata` pc-data table offsets, then its `nfuncdata` func-data offsets,
      then whatever the table holds next. */
  datatype Func = Func(entryoff: u32, nameoff: u32, pcfile: u32, cuOffset: u32,
                       npcdata: u32, nfuncdata: nat, trailer: seq<u32>)

  /** An `ftab` entry: the entry pc offset and where the record sits in `pclntable`. */
  datatype FtabEntry = FtabEntry(entryoff: u32, funcoff: u32)

  /** The relocated tables of a module. `pclntable` maps each record offset the
      model knows about to the record decoded there. */
  datatype Tables = Tables(funcnametab: seq<byte>, cutab: seq<u32>, filetab: seq<byte>,
                           pctab: seq<byte>, pclntable: map<u32, Func>,
                           ftab: seq<FtabEntry>)

  // ---------------------------------------------------------------------------
  // NUL-terminated strings

  /** First position at or after `from` holding `b`, or -1. */
  function IndexFrom(s: seq<byte>, b: byte, from: nat): (r: int)
    ensures r == -1 || from <= r < |s|
    decreases |s| - from
  {
    if from >= |s| then -1
    else if s[from] == b then from
    else IndexFrom(s, b, from + 1)
  }

  function IndexOf(s: seq<byte>, b: byte): (r: int)
  {
    IndexFrom(s, b, 0)
  }

  lemma {:induction false} IndexFromFirst(s: seq<byte>, b: byte, from: nat)
    ensures IndexFrom(s, b, from) >= 0 ==>
      s[IndexFrom(s, b, from)] == b &&
      forall k | from <= k < IndexFrom(s, b, from) :: s[k] != b
    ensures IndexFrom(s, b, from) == -1 ==> forall k | from <= k < |s| :: s[k] != b
    decreases |s| - from
  {
    if from < |s| && s[from] != b {
      IndexFromFirst(s, b, from + 1);
    }
  }

  /** `indexByte` finds `b` exactly when it occurs, and then its first occurrence. */
  lemma IndexOfFirst(s: seq<byte>, b: byte)
    ensures IndexOf(s, b) >= 0 <==> b in s
    ensures IndexOf(s, b) >= 0 ==>
      IndexOf(s, b) < |s| && s[IndexOf(s, b)] == b && b !in s[..IndexOf(s, b)]
    ensures IndexOf(s, b) < 0 ==> IndexOf(s, b) == -1
  {
    IndexFromFirst(s, b, 0);
    var r := IndexOf(s, b);
    if r >= 0 {
      forall k | 0 <= k < r
        ensures s[..r][k] != b
      {
      }
    }
  }

  /** `indexByte`: a left-to-right scan. */
  method IndexByte(bytes: seq<byte>, b: byte) returns (r: int)
    ensures r == IndexOf(bytes, b)
  {
    var i := 0;
    while i < |bytes|
      invariant i <= |bytes|
      invariant IndexFrom(bytes, b, i) == IndexOf(bytes, b)
    {
      if bytes[i] == b {
        return i;
      }
      i := i + 1;
    }
    return -1;
  }

  /** `toString`: the bytes before the first NUL, or none when there is no NUL.
      It takes the address of the first byte, which panics on an empty slice. */
  function ToString(s: seq<byte>): (r: Result<seq<byte>>)
    ensures r.Fault? <==> |s| == 0
    ensures r.Ok? ==> r.value <= s && 0 !in r.value
  {
    if |s| == 0 then Fault
    else
      var l := IndexOf(s, 0);
      IndexOfFirst(s, 0);
      if l < 0 then Ok([]) else Ok(s[..l])
  }

  /** The prefix `toString` returns stops right at the first NUL, and is
      empty when the slice holds no NUL at all. */
  lemma ToStringSpec(s: seq<byte>)
    ensures ToString(s).Ok? ==>
      var r := ToString(s).value;
      (0 in s ==> |r| < |s| && s[|r|] == 0) && (0 !in s ==> r == [])
  {
    IndexOfFirst(s, 0);
  }

  /** The writer side: a name followed by its NUL reads back as the name. */
  lemma ToStringOfTerminated(name: seq<byte>, rest: seq<byte>)
    requires 0 !in name
    ensures ToString(name + [0] + rest) == Ok(name)
  {
    var s := name + [0] + rest;
    IndexOfFirst(s, 0);
    var l := IndexOf(s, 0);
    assert s[|name|] == 0;
    assert forall k | 0 <= k < |name| :: s[k] == name[k];
    assert s[..|name|] == name;
  }

  // ---------------------------------------------------------------------------
  // Records and names

  /** The record an `ftab` entry points at; an offset the tables do not hold
      a record for is a fault. */
  function FuncAt(t: Tables, e: FtabEntry): (r: Result<Func>)
  {
    if e.funcoff in t.pclntable then Ok(t.pclntable[e.funcoff]) else Fault
  }

  /** `getFuncName`: the NUL-terminated string at `nameoff` in `funcnametab`. */
  function FuncName(t: Tables, f: Func): (r: Result<seq<byte>>)
    ensures r.Ok? ==>
      f.nameoff < |t.funcnametab| && r.value <= t.funcnametab[f.nameoff..] && 0 !in r.value
  {
    if f.nameoff > |t.funcnametab| then Fault
    else ToString(t.funcnametab[f.nameoff..])
  }

  /** A string stored NUL-terminated at `off` reads back as itself. */
  lemma ToStringAt(tab: seq<byte>, off: nat, name: seq<byte>)
    requires 0 !in name
    requires off + |name| < |tab|
    requires tab[off..off + |name| + 1] == name + [0]
    ensures ToString(tab[off..]) == Ok(name)
  {
    var rest := tab[off + |name| + 1..];
    assert tab[off..] == tab[off..off + |name| + 1] + rest;
    ToStringOfTerminated(name, rest);
  }

  /** A name stored NUL-terminated at `nameoff` is the record's name. */
  lemma FuncNameStored(t: Tables, f: Func, name: seq<byte>)
    requires 0 !in name
    requires f.nameoff + |name| < |t.funcnametab|
    requires t.funcnametab[f.nameoff..f.nameoff + |name| + 1] == name + [0]
    ensures FuncName(t, f) == Ok(name)
  {
    ToStringAt(t.funcnametab, f.nameoff, name);
  }

  /** The name of the function behind `ftab[k]`. */
  function NameAt(t: Tables, k: nat): (r: Result<seq<byte>>)
    requires k < |t.ftab|
  {
    match FuncAt(t, t.ftab[k])
    case Fault => Fault
    case Ok(f) => FuncName(t, f)
  }

  /** The name lookups `findFunc` makes, one per function of `ftab`, in order. */
  function Names(t: Tables): (ns: seq<Result<seq<byte>>>)
    ensures |ns| == |t.ftab|
  {
    seq(|t.ftab|, k requires 0 <= k < |t.ftab| => NameAt(t, k))
  }

  /** The scan from position `k` on: the index of the first name equal to
      `fn`; a lookup that fails before any match is a fault. */
  function FirstMatch(ns: seq<Result<seq<byte>>>, fn: seq<byte>, k: nat): (r: Result<Option<nat>>)
    ensures r.Ok? && r.value.Some? ==> k <= r.value.value < |ns| && ns[r.value.value] == Ok(fn)
    decreases |ns| - k
  {
    if k >= |ns| then Ok(None)
    else
      match ns[k]
      case Fault => Fault
      case Ok(name) => if name == fn then Ok(Some(k)) else FirstMatch(ns, fn, k + 1)
  }

  /** What `findFunc` returns: the record of the first function whose name is
      `fn`, or `nil` (None). */
  function Find(t: Tables, fn: seq<byte>): (r: Result<Option<Func>>)
  {
    match FirstMatch(Names(t), fn, 0)
    case Fault => Fault
    case Ok(None) => Ok(None)
    case Ok(Some(k)) => Ok(Some(FuncAt(t, t.ftab[k]).value))
  }

  /** `findFunc`: a linear scan of `ftab` comparing names exactly. */
  method FindFunc(t: Tables, fn: seq<byte>) returns (r: Result<Option<Func>>)
    ensures r == Find(t, fn)
  {
    ghost var ns := Names(t);
    var i := 0;
    while i < |t.ftab|
      invariant i <= |ns|
      invariant FirstMatch(ns, fn, i) == FirstMatch(ns, fn, 0)
    {
      assert ns[i] == NameAt(t, i);
      var f := FuncAt(t, t.ftab[i]);
      if f.Fault? {
        return Fault;
      }
      var fname := FuncName(t, f.value);
      if fname.Fault? {
        return Fault;
      }
      if fname.value == fn {
        return Ok(Some(f.value));
      }
      i := i + 1;
    }
    return Ok(None);
  }

  /** The scan stops at the first match, reports `nil` only when every name
      was read and none matched, and faults only at a failed lookup that no
      earlier match shields. */
  lemma {:induction false} FirstMatchSpec(ns: seq<Result<seq<byte>>>, fn: seq<byte>, from: nat)
    ensures FirstMatch(ns, fn, from).Ok? && FirstMatch(ns, fn, from).value.Some? ==>
      forall j | from <= j < FirstMatch(ns, fn, from).value.value :: ns[j].Ok? && ns[j].value != fn
    ensures FirstMatch(ns, fn, from) == Ok(None) ==>
      forall j | from <= j < |ns| :: ns[j].Ok? && ns[j].value != fn
    ensures FirstMatch(ns, fn, from).Fault? ==>
      exists k | from <= k < |ns| :: ns[k].Fault? && forall j | from <= j < k :: ns[j].Ok? && ns[j].value != fn
    decreases |ns| - from
  {
    if from < |ns| && ns[from].Ok? && ns[from].value != fn {
      FirstMatchSpec(ns, fn, from + 1);
      if FirstMatch(ns, fn, from).Fault? {
        var k :| from + 1 <= k < |ns| && ns[k].Fault? &&
          forall j | from + 1 <= j < k :: ns[j].Ok? && ns[j].value != fn;
        assert forall j | from <= j < k :: ns[j].Ok? && ns[j].value != fn;
      }
    }
  }

  /** `findFunc` in terms of the tables: a found record is the one at the first
      name equal to `fn`; `nil` means every name was read and none matched; a
      fault comes from a failed lookup before any match. */
  lemma FindSpec(t: Tables, fn: seq<byte>)
    ensures Find(t, fn).Ok? && Find(t, fn).value.Some? ==>
      exists k | 0 <= k < |t.ftab| ::
        NameAt(t, k) == Ok(fn) &&
        Find(t, fn).value.value == FuncAt(t, t.ftab[k]).value &&
        forall j | 0 <= j < k :: NameAt(t, j).Ok? && NameAt(t, j).value != fn
    ensures Find(t, fn) == Ok(None) ==>
      forall j | 0 <= j < |t.ftab| :: NameAt(t, j).Ok? && NameAt(t, j).value != fn
    ensures Find(t, fn).Fault? ==>
      exists k | 0 <= k < |t.ftab| ::
        NameAt(t, k).Fault? && forall j | 0 <= j < k :: NameAt(t, j).Ok? && NameAt(t, j).value != fn
  {
    var ns := Names(t);
    FirstMatchSpec(ns, fn, 0);
    assert forall k | 0 <= k < |ns| :: ns[k] == NameAt(t, k);
    if Find(t, fn).Ok? && Find(t, fn).value.Some? {
      var k := FirstMatch(ns, fn, 0).value.value;
      assert NameAt(t, k) == Ok(fn);
    }
    if Find(t, fn).Fault? {
      var k :| 0 <= k < |ns| && ns[k].Fault? &&
        forall j | 0 <= j < k :: ns[j].Ok? && ns[j].value != fn;
      assert NameAt(t, k).Fault?;
    }
  }

  // ---------------------------------------------------------------------------
  // Source files

  /** The file name used when the file cannot be determined. */
  const Unknown: seq<byte> := ['?' as byte]

  /** The file number `func_file` derives from the first value of the record's
      pc-file table: the zigzag value delta minus one, in uint32 arithmetic
      (the running value starts at -1). */
  function FileNo(first: u32): (r: u32)
  {
    Wrap32(Wrap32(ZigZagDecode(first)) - 1)
  }

  /** `func_file`. Faults where reading the first varint of the pc-file table
      would panic; otherwise returns "?" unless the compilation unit, its file
      slot and the file offset are all present and in range. The sum
      `cuOffset + fileno` is a uint32 sum and wraps. */
  function FuncFile(t: Tables, f: Func): (r: Result<seq<byte>>)
    ensures r.Ok? ==> 0 !in r.value
  {
    if f.pcfile > |t.pctab| then Fault
    else
      match DecodeVarint(t.pctab, f.pcfile)
      case None => Fault
      case Some(v) =>
        var fileno := FileNo(v.value);
        var slot := Wrap32(f.cuOffset + fileno);
        if f.cuOffset != Absent32 && slot < |t.cutab| then
          var fileoff := t.cutab[slot];
          if fileoff != Absent32 && fileoff < |t.filetab| then ToString(t.filetab[fileoff..])
          else Ok(Unknown)
        else Ok(Unknown)
  }

  /** `func_file` fails only where the first varint cannot be read, and falls
      back to "?" in each of the four missing or out-of-range cases. */
  lemma FuncFileCases(t: Tables, f: Func)
    ensures FuncFile(t, f).Fault? <==>
      f.pcfile > |t.pctab| || DecodeVarint(t.pctab, f.pcfile).None?
    ensures FuncFile(t, f).Ok? ==>
      var fileno := FileNo(DecodeVarint(t.pctab, f.pcfile).value.value);
      var slot := Wrap32(f.cuOffset + fileno);
      (f.cuOffset == Absent32 ==> FuncFile(t, f).value == Unknown) &&
      (slot >= |t.cutab| ==> FuncFile(t, f).value == Unknown) &&
      (slot < |t.cutab| && t.cutab[slot] == Absent32 ==> FuncFile(t, f).value == Unknown) &&
      (slot < |t.cutab| && t.cutab[slot] >= |t.filetab| ==> FuncFile(t, f).value == Unknown)
  {
    if f.pcfile <= |t.pctab| && DecodeVarint(t.pctab, f.pcfile).Some? {
      var fileno := FileNo(DecodeVarint(t.pctab, f.pcfile).value.value);
      var slot := Wrap32(f.cuOffset + fileno);
      if f.cuOffset != Absent32 && slot < |t.cutab| {
        var fileoff := t.cutab[slot];
        if fileoff != Absent32 && fileoff < |t.filetab| {
          ToStringSpec(t.filetab[fileoff..]);
        }
      }
    }
  }

  /** A pc-file table whose first value delta is `fileno + 1` gives file number `fileno`. */
  lemma FileNoEncoded(pctab: seq<byte>, at: nat, fileno: nat)
    requires fileno + 1 < 0x8000_0000
    requires BytesAt(pctab, at, EncodeVarint(ZigZagEncode(fileno + 1)))
    ensures DecodeVarint(pctab, at).Some?
    ensures FileNo(DecodeVarint(pctab, at).value.value) == fileno
  {
    DecodeAt(pctab, at, ZigZagEncode(fileno + 1));
    ZigZagRoundTrip(fileno + 1);
    Wrap32Small(fileno + 1);
    Wrap32Small(fileno);
  }

  /** The file found: a record whose pc-file table starts with value delta
      `fileno + 1`, whose compilation unit lists a file offset at that slot,
      gets the NUL-terminated name stored at that offset. */
  lemma FuncFileFound(t: Tables, f: Func, fileno: nat, name: seq<byte>)
    requires fileno + 1 < 0x8000_0000
    requires BytesAt(t.pctab, f.pcfile, EncodeVarint(ZigZagEncode(fileno + 1)))
    requires f.cuOffset != Absent32 && f.cuOffset + fileno < |t.cutab|
    requires f.cuOffset + fileno < 0x1_0000_0000
    requires t.cutab[f.cuOffset + fileno] != Absent32
    requires 0 !in name
    requires t.cutab[f.cuOffset + fileno] + |name| < |t.filetab|
    requires t.filetab[t.cutab[f.cuOffset + fileno]..t.cutab[f.cuOffset + fileno] + |name| + 1]
      == name + [0]
    ensures FuncFile(t, f) == Ok(name)
  {
    FileNoEncoded(t.pctab, f.pcfile, fileno);
    Wrap32Small(f.cuOffset + fileno);
    ToStringAt(t.filetab, t.cutab[f.cuOffset + fileno], name);
  }

  // ---------------------------------------------------------------------------
  // Grouping function names by file

  /** A function's file and name, as `process_func` files them. */
  datatype Entry = Entry(file: seq<byte>, name: seq<byte>)

  /** The names filed under `file` so far (a missing key reads as no names). */
  function Bucket(m: map<seq<byte>, seq<seq<byte>>>, file: seq<byte>): (r: seq<seq<byte>>)
  {
    if file in m then m[file] else []
  }

  /** The map after filing one more name. */
  function Insert(m: map<seq<byte>, seq<seq<byte>>>, e: Entry): (r: map<seq<byte>, seq<seq<byte>>>)
  {
    m[e.file := Bucket(m, e.file) + [e.name]]
  }

  /** The map built by filing the entries in order. */
  function GroupBy(es: seq<Entry>): (r: map<seq<byte>, seq<seq<byte>>>)
  {
    if es == [] then map[] else Insert(GroupBy(es[..|es| - 1]), es[|es| - 1])
  }

  /** Reference: the names of the entries in `file`, in order. */
  function NamesIn(es: seq<Entry>, file: seq<byte>): (r: seq<seq<byte>>)
  {
    if es == [] then []
    else (if es[0].file == file then [es[0].name] else []) + NamesIn(es[1..], file)
  }

  lemma {:induction false} NamesInAppend(es: seq<Entry>, e: Entry, file: seq<byte>)
    ensures NamesIn(es + [e], file) ==
      NamesIn(es, file) + (if e.file == file then [e.name] else [])
  {
    if es != [] {
      assert (es + [e])[1..] == es[1..] + [e];
      NamesInAppend(es[1..], e, file);
    } else {
      assert [e][1..] == [];
    }
  }

  /** Filing the entries one by one leaves under each file exactly the names of
      that file's functions, in `ftab` order, and a key only for files that
      occur. */
  lemma {:induction false} GroupByBuckets(es: seq<Entry>, file: seq<byte>)
    ensures Bucket(GroupBy(es), file) == NamesIn(es, file)
    ensures file in GroupBy(es) <==> exists k | 0 <= k < |es| :: es[k].file == file
  {
    if es != [] {
      var init := es[..|es| - 1];
      var e := es[|es| - 1];
      GroupByBuckets(init, file);
      assert init + [e] == es;
      NamesInAppend(init, e, file);
      if file in GroupBy(es) && e.file != file {
        var k :| 0 <= k < |init| && init[k].file == file;
        assert es[k].file == file;
      }
      if (exists k | 0 <= k < |es| :: es[k].file == file) && e.file != file {
        var k :| 0 <= k < |es| && es[k].file == file;
        assert k < |init| && init[k].file == file;
      }
    }
  }

  /** The Go map `process_func` fills: file name to function names. */
  class FileIndex {
    var buckets: map<seq<byte>, seq<seq<byte>>>

    constructor()
      ensures buckets == map[]
    {
      buckets := map[];
    }

    /** Appends `name` to the bucket of `file`, creating the bucket if needed. */
    method Add(e: Entry)
      modifies this
      ensures buckets == Insert(old(buckets), e)
    {
      if e.file in buckets {
        buckets := buckets[e.file := buckets[e.file] + [e.name]];
      } else {
        assert [] + [e.name] == [e.name];
        buckets := buckets[e.file := [e.name]];
      }
    }
  }

  /** The entry of one record: its file and its name; a fault in either lookup
      aborts the listing. */
  function EntryOf(t: Tables, f: Func): (r: Result<Entry>)
  {
    match FuncName(t, f)
    case Fault => Fault
    case Ok(name) =>
      match FuncFile(t, f)
      case Fault => Fault
      case Ok(file) => Ok(Entry(file, name))
  }

  /** `process_func`: files the record's name under its file. The index is
      left as it was when either lookup panics. */
  method ProcessFunc(t: Tables, f: Func, idx: FileIndex) returns (ok: bool)
    modifies idx
    ensures ok <==> EntryOf(t, f).Ok?
    ensures ok ==> idx.buckets == Insert(old(idx.buckets), EntryOf(t, f).value)
    ensures !ok ==> idx.buckets == old(idx.buckets)
  {
    var fname := FuncName(t, f);
    if fname.Fault? {
      return false;
    }
    var file := FuncFile(t, f);
    if file.Fault? {
      return false;
    }
    idx.Add(Entry(file.value, fname.value));
    return true;
  }

  /** The entry of the `i`-th function of `ftab`: its record must be present
      in the tables, and both lookups on it must succeed. */
  function EntryAt(t: Tables, i: nat): (r: Result<Entry>)
    requires i < |t.ftab|
  {
    match FuncAt(t, t.ftab[i])
    case Fault => Fault
    case Ok(f) => EntryOf(t, f)
  }

  /** One pass of the grouping loop: locates the record of the `i`-th `ftab`
      entry and hands it to `process_func`. */
  method ListFunc(t: Tables, i: nat, idx: FileIndex) returns (ok: bool)
    requires i < |t.ftab|
    modifies idx
    ensures ok <==> EntryAt(t, i).Ok?
    ensures ok ==> idx.buckets == Insert(old(idx.buckets), EntryAt(t, i).value)
    ensures !ok ==> idx.buckets == old(idx.buckets)
  {
    var f := FuncAt(t, t.ftab[i]);
    if f.Fault? {
      return false;
    }
    ok := ProcessFunc(t, f.value, idx);
  }

  /** The outcome of the lookups for every function of `ftab`, in order. */
  function Lookups(t: Tables): (rs: seq<Result<Entry>>)
    ensures |rs| == |t.ftab|
  {
    seq(|t.ftab|, k requires 0 <= k < |t.ftab| => EntryAt(t, k))
  }

  /** All or nothing: the entries when every lookup succeeded, else a fault. */
  function Collect(rs: seq<Result<Entry>>): (r: Result<seq<Entry>>)
  {
    if rs == [] then Ok([])
    else
      match Collect(rs[..|rs| - 1])
      case Fault => Fault
      case Ok(es) =>
        match rs[|rs| - 1]
        case Fault => Fault
        case Ok(e) => Ok(es + [e])
  }

  /** The listing `PrintFuncs` files: the entries of every function of `ftab`. */
  function Listing(t: Tables): (r: Result<seq<Entry>>)
  {
    Collect(Lookups(t))
  }

  /** `Collect` succeeds exactly when every lookup does, and then keeps every
      entry in place. */
  lemma {:induction false} CollectSpec(rs: seq<Result<Entry>>)
    ensures Collect(rs).Ok? <==> forall k | 0 <= k < |rs| :: rs[k].Ok?
    ensures Collect(rs).Ok? ==>
      |Collect(rs).value| == |rs| &&
      forall k | 0 <= k < |rs| :: Collect(rs).value[k] == rs[k].value
  {
    if rs != [] {
      var init := rs[..|rs| - 1];
      CollectSpec(init);
      assert forall k | 0 <= k < |init| :: init[k] == rs[k];
    }
  }

  /** The grouping loop of `PrintFuncs`: every function of `ftab` is filed,
      so the index ends up holding exactly the grouping of all entries. */
  method GroupFuncs(t: Tables) returns (ok: bool, idx: FileIndex)
    ensures ok <==> Listing(t).Ok?
    ensures ok ==> idx.buckets == GroupBy(Listing(t).value)
  {
    idx := new FileIndex();
    ghost var rs := Lookups(t);
    var i := 0;
    while i < |t.ftab|
      invariant i <= |rs|
      invariant Collect(rs[..i]).Ok?
      invariant idx.buckets == GroupBy(Collect(rs[..i]).value)
    {
      ok := ListFunc(t, i, idx);
      assert rs[i] == EntryAt(t, i);
      if !ok {
        CollectFault(rs, i);
        return false, idx;
      }
      CollectNext(rs, i);
      i := i + 1;
    }
    assert rs[..i] == rs;
    return true, idx;
  }

  /** One more successful lookup extends the entries by its entry, and files
      that entry into the grouping. */
  lemma CollectNext(rs: seq<Result<Entry>>, i: nat)
    requires i < |rs|
    requires Collect(rs[..i]).Ok?
    requires rs[i].Ok?
    ensures Collect(rs[..i + 1]) == Ok(Collect(rs[..i]).value + [rs[i].value])
    ensures GroupBy(Collect(rs[..i + 1]).value) ==
      Insert(GroupBy(Collect(rs[..i]).value), rs[i].value)
  {
    var es := Collect(rs[..i]).value;
    assert rs[..i + 1][..i] == rs[..i];
    assert (es + [rs[i].value])[..|es|] == es;
  }

  /** A single failed lookup makes the whole listing fault. */
  lemma CollectFault(rs: seq<Result<Entry>>, i: nat)
    requires i < |rs|
    requires rs[i].Fault?
    ensures Collect(rs).Fault?
  {
    CollectSpec(rs);
  }

  // ---------------------------------------------------------------------------
  // Func-data slots

  /** `funcdata` as written: reads the word `i` places after the record's
      pc-data offsets without comparing `i` with `nfuncdata`. None stands for
      the absent sentinel. Faults when the word lies past the end of memory
      the model knows. */
  function FuncDataSlotAsWritten(f: Func, i: byte): (r: Result<Option<u32>>)
    ensures r.Ok? <==> f.npcdata + i < |f.trailer|
    ensures r.Ok? ==>
      (r.value.None? <==> f.trailer[f.npcdata + i] == Absent32) &&
      (r.value.Some? ==> r.value.value == f.trailer[f.npcdata + i])
  {
    var k := f.npcdata + i;
    if k >= |f.trailer| then Fault
    else if f.trailer[k] == Absent32 then Ok(None)
    else Ok(Some(f.trailer[k]))
  }

  /** `funcdata` with the bounds check the Go runtime's own version makes:
      a slot at or past `nfuncdata` is absent. */
  function FuncDataSlot(f: Func, i: byte): (r: Result<Option<u32>>)
    ensures r.Ok? && r.value.Some? ==> i < f.nfuncdata && r.value.value != Absent32
  {
    if i >= f.nfuncdata then Ok(None) else FuncDataSlotAsWritten(f, i)
  }

  /** A record whose words cover its pc-data and func-data offsets. */
  predicate WellFormedFunc(f: Func)
  {
    f.npcdata + f.nfuncdata <= |f.trailer|
  }

  /** The corrected slot lookup never reads past the record, never faults on a
      well-formed one, and a present offset is the record's own slot word. */
  lemma FuncDataSlotSpec(f: Func, i: byte)
    ensures FuncDataSlot(f, i).Ok? && FuncDataSlot(f, i).value.Some? ==>
      i < f.nfuncdata && f.npcdata + i < |f.trailer| &&
      FuncDataSlot(f, i).value.value == f.trailer[f.npcdata + i] != Absent32
    ensures FuncDataSlot(f, i) == Ok(None) <==>
      i >= f.nfuncdata ||
      (f.npcdata + i < |f.trailer| && f.trailer[f.npcdata + i] == Absent32)
    ensures WellFormedFunc(f) ==> FuncDataSlot(f, i).Ok?
  {
  }

  /** The unchecked lookup hands out the next word after a record with no
      func-data at all as if it were a slot. */
  lemma FuncDataSlotPastRecord()
    ensures var f := Func(0, 0, 0, 0, 0, 0, [7]);
      WellFormedFunc(f) && FuncDataSlotAsWritten(f, 0) == Ok(Some(7)) &&
      FuncDataSlot(f, 0) == Ok(None)
  {
  }
}

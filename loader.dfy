/** Loading a module's sections: the run-time `moduledata` read from the
    binary holds the addresses the tables had when the program ran, and the
    decoder moves them onto its own copies of the sections, each at most once. */
module Loader {
  import opened Machine
  import opened FuncCatalog

  const Modulus64: int := 0x1_0000_0000_0000_0000

  // ---------------------------------------------------------------------------
  // Address arithmetic

  /** `relocate`: the word read as an int64, moved by `delta`, stored back as
      a uintptr. Whatever the sign of either as an int64, this adds `delta`
      to the word modulo 2^64. */
  function Relocate(x: u64, delta: i64): (r: u64)
    ensures r == Wrap64(x + delta)
  {
    Int64OfU64(x);
    Wrap64Congruent(x + delta, Int64(x) + delta, if Int64(x) == x then 0 else 1);
    Wrap64(Int64(x) + delta)
  }

  /** Numbers that differ by a multiple of 2^64 wrap to the same uintptr. */
  lemma Wrap64Congruent(a: int, b: int, q: int)
    requires a == b + q * Modulus64
    ensures Wrap64(a) == Wrap64(b)
  {
    var qb := b / Modulus64;
    assert b == qb * Modulus64 + Wrap64(b);
    assert a == (q + qb) * Modulus64 + Wrap64(b);
  }

  /** A uintptr read as an int64 is the same word. */
  lemma Int64OfU64(x: u64)
    ensures Int64(x) == x || Int64(x) == x - Modulus64
  {
    assert Wrap64(x) == x;
  }

  /** Moving back by the opposite amount restores the word. */
  lemma RelocateUndo(x: u64, delta: i64)
    requires delta > -0x8000_0000_0000_0000
    ensures Relocate(Relocate(x, delta), -delta) == x
  {
    var y := Relocate(x, delta);
    var q := (x + delta) / Modulus64;
    assert x + delta == q * Modulus64 + y;
    Wrap64Congruent(x, y - delta, q);
    assert Wrap64(x) == x;
  }

  /** Moving two words by the same amount keeps the distance between them. */
  lemma RelocateKeepsDistance(x: u64, y: u64, delta: i64)
    ensures Wrap64(Relocate(x, delta) - Relocate(y, delta)) == Wrap64(x - y)
  {
    var qx := (x + delta) / Modulus64;
    var qy := (y + delta) / Modulus64;
    assert x + delta == qx * Modulus64 + Relocate(x, delta);
    assert y + delta == qy * Modulus64 + Relocate(y, delta);
    Wrap64Congruent(x - y, Relocate(x, delta) - Relocate(y, delta), qx - qy);
  }

  /** The amount `loadpcln` moves the tables by: the address of its copy of
      the section minus the recorded header address, both read as int64 and
      subtracted with int64 wrap-around. Added to the header address modulo
      2^64, it gives the copy's address. */
  function PclnDelta(copy: u64, header: u64): (d: i64)
    ensures Wrap64(header + d) == copy
  {
    Int64OfU64(copy);
    Int64OfU64(header);
    var w := Int64(copy) - Int64(header);
    var d := Int64(w);
    var q := w / Modulus64;
    assert w == q * Modulus64 + Wrap64(w);
    var c := if Int64(copy) == copy then 0 else 1;
    var h := if Int64(header) == header then 0 else 1;
    var e := if d == Wrap64(w) then 0 else 1;
    assert header + d == copy + (h - c - q - e) * Modulus64;
    Wrap64Congruent(header + d, copy, h - c - q - e);
    assert Wrap64(copy) == copy;
    d
  }

  // ---------------------------------------------------------------------------
  // The module record

  /** The words of `moduledata` the decoder reads: the data pointers of the
      seven pc-line tables, then the text, read-only data, `gofunc` and type
      link addresses. */
  class ModuleData {
    var pcHeader: u64
    var funcnametab: u64
    var cutab: u64
    var filetab: u64
    var pctab: u64
    var pclntable: u64
    var ftab: u64
    var text: u64
    var rodata: u64
    var gofunc: u64
    var typelinks: u64

    constructor (pcHeader: u64, funcnametab: u64, cutab: u64, filetab: u64, pctab: u64,
                 pclntable: u64, ftab: u64, text: u64, rodata: u64, gofunc: u64,
                 typelinks: u64)
      ensures TableWords() == [pcHeader, funcnametab, cutab, filetab, pctab, pclntable, ftab]
      ensures Others() == [text, rodata, gofunc, typelinks]
    {
      this.pcHeader := pcHeader;
      this.funcnametab := funcnametab;
      this.cutab := cutab;
      this.filetab := filetab;
      this.pctab := pctab;
      this.pclntable := pclntable;
      this.ftab := ftab;
      this.text := text;
      this.rodata := rodata;
      this.gofunc := gofunc;
      this.typelinks := typelinks;
    }

    /** The seven words `relocate_module` moves, in its order. */
    function TableWords(): (ws: seq<u64>)
      reads this
      ensures |ws| == 7 && ws[0] == pcHeader
    {
      [pcHeader, funcnametab, cutab, filetab, pctab, pclntable, ftab]
    }

    /** The words it leaves alone. */
    function Others(): (r: seq<u64>)
      reads this
    {
      [text, rodata, gofunc, typelinks]
    }

    /** `relocate_module`: moves each of the seven table pointers by `d` and
        nothing else. */
    method RelocateModule(d: i64)
      modifies this
      ensures forall k | 0 <= k < 7 :: TableWords()[k] == Relocate(old(TableWords())[k], d)
      ensures Others() == old(Others())
    {
      pcHeader := Relocate(pcHeader, d);
      funcnametab := Relocate(funcnametab, d);
      cutab := Relocate(cutab, d);
      filetab := Relocate(filetab, d);
      pctab := Relocate(pctab, d);
      pclntable := Relocate(pclntable, d);
      ftab := Relocate(ftab, d);
    }
  }

  /** After the move every table sits where the header's move puts it: as far
      from the header as it was before. */
  lemma RelocatedLayout(before: seq<u64>, after: seq<u64>, d: i64)
    requires |before| == 7 && |after| == 7
    requires forall k | 0 <= k < 7 :: after[k] == Relocate(before[k], d)
    ensures forall k | 0 <= k < 7 ::
      Wrap64(after[k] as int - after[0]) == Wrap64(before[k] as int - before[0])
  {
    forall k | 0 <= k < 7
      ensures Wrap64(after[k] as int - after[0]) == Wrap64(before[k] as int - before[0])
    {
      RelocateKeepsDistance(before[k], before[0], d);
    }
  }

  // ---------------------------------------------------------------------------
  // Loading

  /** A section as the loader reads it: its bytes, copied into a fresh buffer,
      and the address of that buffer. A missing section or a short read is
      None. */
  datatype Section = Section(data: seq<byte>, addr: u64)

  /** What `funcdata` returns for a present slot: a pointer into the loaded
      copy of the read-only data, and the address the data had in the running
      program. */
  datatype FuncDataRef = FuncDataRef(ptr: u64, addr: u64)

  /** Where `loadrodata` points `gofunc`: as far into the copy at `copy` as the
      module's `gofunc` address is into its read-only data. */
  function GofuncPtr(copy: u64, moduleGofunc: u64, moduleRodata: u64): (r: u64)
  {
    Wrap64(copy + Wrap64(moduleGofunc - moduleRodata))
  }

  /** The state of an opened binary: its module record, the copy of its
      read-only data, and one flag per section telling whether it is loaded. */
  class ElfInfo {
    const md: ModuleData
    var rodata: seq<byte>
    var rodataAddr: u64
    var gofunc: u64
    var pclnLoaded: bool
    var rodataLoaded: bool
    var typelinkLoaded: bool

    /** Once the read-only data is loaded, the copy is non-empty and `gofunc`
        points into it where the module's `gofunc` is in the original. */
    predicate Valid()
      reads this, md
    {
      rodataLoaded ==>
        |rodata| > 0 && gofunc == GofuncPtr(rodataAddr, md.gofunc, md.rodata)
    }

    /** The state `Open` builds from the module record: nothing loaded yet. */
    constructor (md: ModuleData)
      ensures this.md == md
      ensures !pclnLoaded && !rodataLoaded && !typelinkLoaded
      ensures Valid()
    {
      this.md := md;
      rodata := [];
      rodataAddr := 0;
      gofunc := 0;
      pclnLoaded := false;
      rodataLoaded := false;
      typelinkLoaded := false;
    }

    /** `loadpcln`: on the first call, moves the seven table pointers so that
        the header pointer lands on the copy of the pc-line section; later
        calls change nothing. A missing or empty section stops the program
        (`ok` false) before anything changes. */
    method LoadPcln(sec: Option<Section>) returns (ok: bool)
      requires Valid()
      modifies this, md
      ensures Valid()
      ensures old(pclnLoaded) ==> ok && unchanged(this) && unchanged(md)
      ensures !old(pclnLoaded) && (sec.None? || sec.value.data == []) ==>
        !ok && unchanged(this) && unchanged(md)
      ensures !old(pclnLoaded) && sec.Some? && sec.value.data != [] ==>
        ok && pclnLoaded &&
        md.pcHeader == sec.value.addr &&
        (forall k | 0 <= k < 7 ::
          md.TableWords()[k] ==
            Relocate(old(md.TableWords())[k], PclnDelta(sec.value.addr, old(md.pcHeader)))) &&
        md.Others() == old(md.Others()) &&
        rodata == old(rodata) && rodataAddr == old(rodataAddr) && gofunc == old(gofunc) &&
        rodataLoaded == old(rodataLoaded) && typelinkLoaded == old(typelinkLoaded)
    {
      if pclnLoaded {
        return true;
      }
      if sec.None? || sec.value.data == [] {
        return false;
      }
      var delta := PclnDelta(sec.value.addr, md.pcHeader);
      ghost var header := md.pcHeader;
      assert md.TableWords()[0] == header;
      md.RelocateModule(delta);
      assert md.pcHeader == md.TableWords()[0] == Relocate(header, delta);
      pclnLoaded := true;
      ok := true;
    }

    /** `loadrodata`: on the first call, keeps the copy of the read-only data
        and points `gofunc` into it; later calls change nothing. A missing or
        empty section stops the program. */
    method LoadRodata(sec: Option<Section>) returns (ok: bool)
      requires Valid()
      modifies this
      ensures Valid()
      ensures old(rodataLoaded) ==> ok && unchanged(this)
      ensures !old(rodataLoaded) && (sec.None? || sec.value.data == []) ==>
        !ok && unchanged(this)
      ensures !old(rodataLoaded) && sec.Some? && sec.value.data != [] ==>
        ok && rodataLoaded &&
        rodata == sec.value.data && rodataAddr == sec.value.addr &&
        gofunc == GofuncPtr(sec.value.addr, md.gofunc, md.rodata) &&
        pclnLoaded == old(pclnLoaded) && typelinkLoaded == old(typelinkLoaded)
    {
      if rodataLoaded {
        return true;
      }
      if sec.None? || sec.value.data == [] {
        return false;
      }
      rodata := sec.value.data;
      rodataAddr := sec.value.addr;
      var d := Wrap64(md.gofunc - md.rodata);
      gofunc := Wrap64(rodataAddr + d);
      rodataLoaded := true;
      ok := true;
    }

    /** `loadTypeLinks`: on the first call, points the module's type links at
        the copy of the type-link section; later calls change nothing. */
    method LoadTypeLinks(sec: Option<Section>) returns (ok: bool)
      requires Valid()
      modifies this, md
      ensures Valid()
      ensures old(typelinkLoaded) ==> ok && unchanged(this) && unchanged(md)
      ensures !old(typelinkLoaded) && (sec.None? || sec.value.data == []) ==>
        !ok && unchanged(this) && unchanged(md)
      ensures !old(typelinkLoaded) && sec.Some? && sec.value.data != [] ==>
        ok && typelinkLoaded && md.typelinks == sec.value.addr &&
        md.TableWords() == old(md.TableWords()) &&
        md.text == old(md.text) && md.rodata == old(md.rodata) &&
        md.gofunc == old(md.gofunc) &&
        rodata == old(rodata) && rodataAddr == old(rodataAddr) && gofunc == old(gofunc) &&
        pclnLoaded == old(pclnLoaded) && rodataLoaded == old(rodataLoaded)
    {
      if typelinkLoaded {
        return true;
      }
      if sec.None? || sec.value.data == [] {
        return false;
      }
      md.typelinks := sec.value.addr;
      typelinkLoaded := true;
      ok := true;
    }

    /** `funcdata`: loads the read-only data, then resolves func-data slot `i`
        of `f` (with the bounds check of `FuncDataSlot`) to a pointer into the
        copy and an address in the running program. */
    method FuncData(f: Func, i: byte, ro: Option<Section>) returns (r: Result<Option<FuncDataRef>>)
      requires Valid()
      modifies this
      ensures Valid()
      ensures old(rodataLoaded) ==> unchanged(this)
      ensures !old(rodataLoaded) ==> (rodataLoaded <==> ro.Some? && ro.value.data != [])
      ensures !old(rodataLoaded) && rodataLoaded ==>
        ro.Some? && rodata == ro.value.data && rodataAddr == ro.value.addr
      ensures pclnLoaded == old(pclnLoaded) && typelinkLoaded == old(typelinkLoaded)
      ensures r.Fault? <==> !rodataLoaded || FuncDataSlot(f, i).Fault?
      ensures r.Ok? ==> (r.value.None? <==> FuncDataSlot(f, i) == Ok(None))
      ensures r.Ok? && r.value.Some? ==>
        var off := FuncDataSlot(f, i).value.value;
        r.value.value.addr == Wrap64(md.gofunc + off) &&
        Wrap64(r.value.value.ptr - rodataAddr) == Wrap64(r.value.value.addr - md.rodata)
    {
      var ok := LoadRodata(ro);
      if !ok {
        return Fault;
      }
      var slot := FuncDataSlot(f, i);
      if slot.Fault? {
        return Fault;
      }
      if slot.value.None? {
        return Ok(None);
      }
      var off := slot.value.value;
      var ref := FuncDataRef(Wrap64(gofunc + off), Wrap64(md.gofunc + off));
      GofuncOffset(rodataAddr, md.gofunc, md.rodata, off);
      return Ok(Some(ref));
    }

    /** `getFuncData`: loads the pc-line tables, looks the function up by name
        in the decoded tables `t` (a missing function ends the program), and
        resolves its func-data slot `i`. */
    method GetFuncData(t: Tables, fn: seq<byte>, i: byte, pcln: Option<Section>,
                       ro: Option<Section>)
      returns (r: Result<(Func, Option<FuncDataRef>)>)
      requires Valid()
      modifies this, md
      ensures Valid()
      ensures old(pclnLoaded) ==> unchanged(md)
      ensures typelinkLoaded == old(typelinkLoaded)
      ensures !old(pclnLoaded) && (pcln.None? || pcln.value.data == []) ==>
        r.Fault? && unchanged(this) && unchanged(md)
      ensures !old(pclnLoaded) && pcln.Some? && pcln.value.data != [] ==>
        pclnLoaded && md.pcHeader == pcln.value.addr &&
        (forall k | 0 <= k < 7 ::
          md.TableWords()[k] ==
            Relocate(old(md.TableWords())[k], PclnDelta(pcln.value.addr, old(md.pcHeader)))) &&
        md.Others() == old(md.Others())
      ensures !old(rodataLoaded) && rodataLoaded ==>
        ro.Some? && rodata == ro.value.data && rodataAddr == ro.value.addr
      ensures r.Ok? <==>
        (old(pclnLoaded) || (pcln.Some? && pcln.value.data != [])) &&
        Find(t, fn).Ok? && Find(t, fn).value.Some? &&
        (old(rodataLoaded) || (ro.Some? && ro.value.data != [])) &&
        FuncDataSlot(Find(t, fn).value.value, i).Ok?
      ensures r.Ok? ==> Find(t, fn) == Ok(Some(r.value.0)) && pclnLoaded && rodataLoaded
      ensures r.Ok? ==> (r.value.1.None? <==> FuncDataSlot(r.value.0, i) == Ok(None))
      ensures r.Ok? && r.value.1.Some? ==>
        var off := FuncDataSlot(r.value.0, i).value.value;
        r.value.1.value.addr == Wrap64(md.gofunc + off) &&
        Wrap64(r.value.1.value.ptr - rodataAddr) == Wrap64(r.value.1.value.addr - md.rodata)
    {
      var ok := LoadPcln(pcln);
      if !ok {
        return Fault;
      }
      var found := FindFunc(t, fn);
      if found.Fault? || found.value.None? {
        return Fault;
      }
      var f := found.value.value;
      var d := FuncData(f, i, ro);
      if d.Fault? {
        return Fault;
      }
      return Ok((f, d.value));
    }
  }

  /** The pointer `gofunc + off` lies as far into the copy as `off` past the
      module's `gofunc` lies into the original read-only data. */
  lemma GofuncOffset(copy: u64, moduleGofunc: u64, moduleRodata: u64, off: u32)
    ensures Wrap64(Wrap64(GofuncPtr(copy, moduleGofunc, moduleRodata) + off) - copy) ==
            Wrap64(Wrap64(moduleGofunc + off) - moduleRodata)
  {
    var g := moduleGofunc - moduleRodata;
    var p := GofuncPtr(copy, moduleGofunc, moduleRodata);
    var q1 := g / Modulus64;
    var q2 := (copy + Wrap64(g)) / Modulus64;
    var q3 := (p + off) / Modulus64;
    var q4 := (moduleGofunc + off) / Modulus64;
    assert g == q1 * Modulus64 + Wrap64(g);
    assert copy + Wrap64(g) == q2 * Modulus64 + p;
    assert p + off == q3 * Modulus64 + Wrap64(p + off);
    assert moduleGofunc + off == q4 * Modulus64 + Wrap64(moduleGofunc + off);
    Wrap64Congruent(Wrap64(p + off) - copy, Wrap64(moduleGofunc + off) - moduleRodata,
                    q4 - q3 - q2 - q1);
  }
}

/**
 The dynamic linker's bookkeeping (`src/dyld.rs`): which host function each SVC number stands for,
 lazy linking of stubs, trampolines for host functions, and the dispatch of SVCs
 (`src/environment.rs`).
 */
module LazyLinker {
  import opened Wrappers
  import opened GuestMemory
  import opened ArmCode
  import opened SymbolStubs

  datatype HostFunction = Exported(name: string) | CxxAbiThrowIntercept | DyldStubBinder | Unimplemented

  datatype LinkedFunction = LinkedFunction(symbol: string, f: HostFunction)

  /** A binary: its stub section with indirect symbols, its lazy pointer section, and its exports. */
  datatype StubTable = StubTable(section: StubSection, symbols: seq<Option<string>>)
  datatype Binary = Binary(stubs: Option<StubTable>, lazyPointers: Option<nat>, exports: map<string, word>)

  /** What the linker looks symbols up in. */
  datatype Libraries = Libraries(bins: seq<Binary>, hostExports: set<string>)

  datatype Linker = Linker(mem: Memory, linked: seq<LinkedFunction>, nonLazy: map<string, word>)

  /** SVC numbers below this one are free of the return flag. */
  const MAX_LINKED := SVC_LAZY_LINK_RET_FLAG - SVC_LINKED_FUNCTIONS_BASE

  // ---------- Locating the stub ----------

  function FindStub(bins: seq<Binary>, svcPc: nat): Option<(StubTable, word)> {
    if bins == [] then None else
      match bins[0].stubs
      case Some(t) =>
        if t.section.addr <= svcPc < t.section.addr + t.section.size then
          Some((t, if bins[0].lazyPointers.Some?
                   then (bins[0].lazyPointers.value - t.section.addr) % ADDRESS_SPACE else 0))
        else FindStub(bins[1..], svcPc)
      case None => FindStub(bins[1..], svcPc)
  }

  /** The stub exists, starts at `svcPc` and has a symbol: otherwise the source panics. */
  predicate Located(libs: Libraries, svcPc: nat) {
    var found := FindStub(libs.bins, svcPc);
    && found.Some?
    && var s := found.value.0.section;
       && s.addr <= svcPc && s.entrySize > 0 && (svcPc - s.addr) % s.entrySize == 0
       && (svcPc - s.addr) / s.entrySize < |found.value.0.symbols|
       && found.value.0.symbols[(svcPc - s.addr) / s.entrySize].Some?
  }

  function EntrySize(libs: Libraries, svcPc: nat): nat
    requires Located(libs, svcPc)
  {
    FindStub(libs.bins, svcPc).value.0.section.entrySize
  }

  function PicOffset(libs: Libraries, svcPc: nat): word
    requires Located(libs, svcPc)
  {
    FindStub(libs.bins, svcPc).value.1
  }

  function SymbolAt(libs: Libraries, svcPc: nat): string
    requires Located(libs, svcPc)
  {
    var t := FindStub(libs.bins, svcPc).value.0;
    t.symbols[(svcPc - t.section.addr) / t.section.entrySize].value
  }

  function FirstExport(bins: seq<Binary>, symbol: string): Option<word> {
    if bins == [] then None
    else if symbol in bins[0].exports then Some(bins[0].exports[symbol])
    else FirstExport(bins[1..], symbol)
  }

  predicate HasStubAt(bin: Binary, a: nat) {
    match bin.stubs
    case Some(t) => t.section.addr <= a < t.section.addr + t.section.size
    case None => false
  }

  /** `a` is where stub `i` of binary `b`, a stub for `name`, starts; no earlier binary has a stub there. */
  ghost predicate OwnsStub(bins: seq<Binary>, b: nat, i: nat, name: string, a: nat) {
    && b < |bins| && HasStubAt(bins[b], a) && (forall c :: 0 <= c < b ==> !HasStubAt(bins[c], a))
    && var t := bins[b].stubs.value;
       i < |t.symbols| && t.symbols[i] == Some(name)
       && t.section.entrySize > 0 && a == t.section.addr + i * t.section.entrySize
  }

  lemma {:induction false} FindsFirstSection(bins: seq<Binary>, b: nat, a: nat)
    requires b < |bins| && HasStubAt(bins[b], a) && forall c :: 0 <= c < b ==> !HasStubAt(bins[c], a)
    ensures FindStub(bins, a) ==
            Some((bins[b].stubs.value, if bins[b].lazyPointers.Some?
                  then (bins[b].lazyPointers.value - bins[b].stubs.value.section.addr) % ADDRESS_SPACE else 0))
  {
    if b > 0 {
      assert forall c :: 0 <= c < b ==> bins[1..][c] == bins[c + 1];
      assert !HasStubAt(bins[0], a);
      FindsFirstSection(bins[1..], b - 1, a);
    }
  }

  /** The linker finds every stub, with its own symbol and the distance to its binary's lazy pointers. */
  lemma StubIsLocated(libs: Libraries, b: nat, i: nat, name: string, a: nat)
    requires OwnsStub(libs.bins, b, i, name, a)
    ensures Located(libs, a) && SymbolAt(libs, a) == name
    ensures EntrySize(libs, a) == libs.bins[b].stubs.value.section.entrySize
    ensures libs.bins[b].lazyPointers.Some? ==>
              (a - i * EntrySize(libs, a) + PicOffset(libs, a) - libs.bins[b].lazyPointers.value) % ADDRESS_SPACE == 0
    ensures libs.bins[b].lazyPointers.None? ==> PicOffset(libs, a) == 0
  {
    var s := libs.bins[b].stubs.value.section;
    FindsFirstSection(libs.bins, b, a);
    MultipleOf(a - s.addr, i, s.entrySize);
  }

  lemma MultipleOf(offset: nat, i: nat, n: nat)
    requires n > 0 && offset == i * n
    ensures offset % n == 0 && offset / n == i
  {
    var q, r := offset / n, offset % n;
    assert offset == n * q + r;
    SameMultiple(n, i, q, r);
  }

  lemma SameMultiple(n: nat, i: nat, q: int, r: nat)
    requires r < n && i * n == n * q + r
    ensures i == q && r == 0
  {
    assert n * (i - q) == r;
    MultipleGrows(n, i - q);
  }

  lemma MultipleGrows(n: nat, d: int)
    requires n > 0
    ensures d >= 1 ==> n * d >= n
    ensures d <= -1 ==> n * d + n <= 0
  {
  }

  lemma OwnersAgree(libs: Libraries, a: nat)
    ensures forall b: nat, i: nat, name: string :: OwnsStub(libs.bins, b, i, name, a) ==>
              && Located(libs, a) && SymbolAt(libs, a) == name
              && EntrySize(libs, a) == libs.bins[b].stubs.value.section.entrySize
  {
    forall b: nat, i: nat, name: string | OwnsStub(libs.bins, b, i, name, a)
      ensures && Located(libs, a) && SymbolAt(libs, a) == name
              && EntrySize(libs, a) == libs.bins[b].stubs.value.section.entrySize
    {
      StubIsLocated(libs, b, i, name, a);
    }
  }

  ghost predicate FirstExporter(bins: seq<Binary>, b: nat, symbol: string) {
    b < |bins| && symbol in bins[b].exports && forall c :: 0 <= c < b ==> symbol !in bins[c].exports
  }

  /** The first binary that exports the symbol wins. */
  lemma {:induction false} FirstExporterWins(bins: seq<Binary>, b: nat, symbol: string)
    ensures FirstExporter(bins, b, symbol) ==> FirstExport(bins, symbol) == Some(bins[b].exports[symbol])
    ensures (forall c :: 0 <= c < |bins| ==> symbol !in bins[c].exports) ==> FirstExport(bins, symbol).None?
    decreases |bins|
  {
    if bins != [] {
      assert forall c :: 0 <= c < |bins| - 1 ==> bins[1..][c] == bins[c + 1];
      FirstExporterWins(bins[1..], if b > 0 then b - 1 else 0, symbol);
    }
  }

  // ---------- Linking ----------

  /** The SVC that calls linked function `i`; 4-byte sites ask for a manual return. */
  function SvcFor(i: nat, size: nat): nat {
    i + SVC_LINKED_FUNCTIONS_BASE + (if size == 4 then SVC_LAZY_LINK_RET_FLAG else 0)
  }

  const TRAMPOLINE_SIZE := 8

  /** `block` is where the allocator places the trampoline. */
  function CreateGuestFunction(l: Linker, symbol: string, f: HostFunction, block: word): (Linker, word)
    requires |l.linked| < MAX_LINKED
  {
    (Linker(l.mem.Write(block, EncodeSvc(SvcFor(|l.linked|, TRAMPOLINE_SIZE))).Write(block + 4, RETURN_WORD),
            l.linked + [LinkedFunction(symbol, f)], l.nonLazy),
     block)
  }

  /** A trampoline that is made once per symbol and remembered. */
  function CachedGuestFunction(l: Linker, symbol: string, f: HostFunction, block: word): (Linker, word)
    requires |l.linked| < MAX_LINKED
  {
    if symbol in l.nonLazy then (l, l.nonLazy[symbol]) else
      var (l', addr) := CreateGuestFunction(l, symbol, f, block);
      (l'.(nonLazy := l.nonLazy[symbol := addr]), addr)
  }

  const CXA_THROW := "__cxa_throw"
  const STUB_BINDER := "dyld_stub_binder"

  /** The name a requested function is cached under, and the function. */
  function ProcTarget(libs: Libraries, symbol: string): Option<(string, HostFunction)> {
    if symbol == STUB_BINDER || symbol == "_" + STUB_BINDER then Some((STUB_BINDER, DyldStubBinder))
    else if symbol == CXA_THROW then Some((CXA_THROW, CxxAbiThrowIntercept))
    else if symbol in libs.hostExports then Some((symbol, Exported(symbol)))
    else None
  }

  /**
   Both spellings of the stub binder stand for it, the throwing function for its intercept whatever the host
   exports, and every other name for the host's function of that name, if there is one.
   */
  lemma WhatNamesStandFor(libs: Libraries, symbol: string)
    ensures symbol == "dyld_stub_binder" || symbol == "_dyld_stub_binder" ==>
              ProcTarget(libs, symbol) == Some(("dyld_stub_binder", DyldStubBinder))
    ensures symbol == "__cxa_throw" ==> ProcTarget(libs, symbol) == Some(("__cxa_throw", CxxAbiThrowIntercept))
    ensures symbol !in {"dyld_stub_binder", "_dyld_stub_binder", "__cxa_throw"} ==>
              ProcTarget(libs, symbol) == if symbol in libs.hostExports then Some((symbol, Exported(symbol))) else None
  {
    assert "_" + STUB_BINDER == "_dyld_stub_binder";
    assert STUB_BINDER[0] == 'd' && CXA_THROW[0] == '_' && CXA_THROW[1] == '_' && "_dyld_stub_binder"[1] == 'd';
  }

  function CreateProcAddress(libs: Libraries, l: Linker, symbol: string, block: word): (Linker, Option<word>)
    requires |l.linked| < MAX_LINKED
  {
    match ProcTarget(libs, symbol)
    case Some((key, f)) => var (l', addr) := CachedGuestFunction(l, key, f, block); (l', Some(addr))
    case None => (l, None)
  }

  function Redirect(l: Linker, target: word, svcPc: nat, entrySize: nat, picOffset: word): Linker {
    l.(mem := LinkByRestoring(l.mem, target, svcPc, entrySize, picOffset))
  }

  /** The host's function for a symbol no binary exports; one that just returns 0 if there is none. */
  function HostFor(libs: Libraries, symbol: string): HostFunction {
    if symbol in libs.hostExports then Exported(symbol) else Unimplemented
  }

  /** `do_lazy_link`: the new state, and the host function to call right away, if any. */
  function LazyLink(libs: Libraries, l: Linker, svcPc: nat, block: word): (Linker, Option<HostFunction>)
    requires Located(libs, svcPc) && |l.linked| < MAX_LINKED
  {
    var size, pic, symbol := EntrySize(libs, svcPc), PicOffset(libs, svcPc), SymbolAt(libs, svcPc);
    if symbol in l.nonLazy then (Redirect(l, l.nonLazy[symbol], svcPc, size, pic), None)
    else if symbol == CXA_THROW then
      var (l', addr) := CachedGuestFunction(l, CXA_THROW, CxxAbiThrowIntercept, block);
      (Redirect(l', addr, svcPc, size, pic), None)
    else match FirstExport(libs.bins, symbol)
      case Some(addr) => (Redirect(l, addr, svcPc, size, pic), None)
      case None =>
        var f := HostFor(libs, symbol);
        (Linker(l.mem.Write(svcPc, EncodeSvc(SvcFor(|l.linked|, size))), l.linked + [LinkedFunction(symbol, f)],
                l.nonLazy),
         Some(f))
  }

  // ---------- Dispatch ----------

  predicate HasReturnFlag(svc: nat) {
    svc / SVC_LAZY_LINK_RET_FLAG % 2 == 1
  }

  function ClearReturnFlag(svc: nat): nat {
    if HasReturnFlag(svc) then svc - SVC_LAZY_LINK_RET_FLAG else svc
  }

  datatype Dispatch = LinkLazily | Call(f: HostFunction) | Ignored

  /** `get_svc_handler`, with the lazy-linking branch left to `LazyLink`. */
  function DispatchSvc(linked: seq<LinkedFunction>, svc: nat): Dispatch {
    if svc == SVC_LAZY_LINK || svc == SVC_LAZY_LINK_RET_FLAG then LinkLazily
    else if svc == SVC_THREAD_EXIT || svc == SVC_RETURN_TO_HOST then Ignored
    else
      var i := ClearReturnFlag(svc) - SVC_LINKED_FUNCTIONS_BASE;
      if 0 <= i < |linked| then Call(linked[i].f) else Ignored
  }

  /** What the guest does once the host function has returned (src/environment.rs:2198-2218). */
  function AfterHostCall(m: Memory, svc: nat, svcPc: nat, regs: Registers, n: nat): Outcome {
    if HasReturnFlag(svc) then Jump(regs[LR]) else Execute(m, svcPc + 4, regs, n)
  }

  /** Numbers from 0x800000 on ask for the return to the caller, smaller ones for the instruction behind the call. */
  lemma WhereCallsReturn(m: Memory, svc: nat, svcPc: nat, regs: Registers, n: nat)
    requires svc < 0x100_0000
    ensures AfterHostCall(m, svc, svcPc, regs, n) ==
            if svc >= 0x80_0000 then Jump(regs[14]) else Execute(m, svcPc + 4, regs, n)
  {
    assert svc / 0x80_0000 == if svc >= 0x80_0000 then 1 else 0;
  }

  // ---------- What a run of the linker keeps ----------

  /** Code the linker has written: a call of a linked host function, or a redirected stub. */
  datatype Site = HostCall(index: nat, size: nat) | Redirected(size: nat, slot: nat, target: word)

  ghost predicate SiteHolds(l: Linker, a: nat, site: Site) {
    match site
    case HostCall(i, size) =>
      i < |l.linked| && i < MAX_LINKED && (size == 4 || size >= 8) && IsTrapStub(l.mem, a, size, SvcFor(i, size))
    case Redirected(size, slot, target) => IsLinkedStub(l.mem, a, size, slot, target)
  }

  /** A range of memory that holds none of the linker's code and none of its pointer slots. */
  ghost predicate Apart(sites: map<nat, Site>, a: nat, size: nat) {
    forall b :: b in sites ==>
      && DisjointRanges(a, size, b, sites[b].size)
      && (sites[b].Redirected? ==> DisjointRanges(a, size, sites[b].slot, 4))
  }

  ghost predicate ApartFromOthers(sites: map<nat, Site>, a: nat, size: nat) {
    forall b :: b in sites && b != a ==>
      && DisjointRanges(a, size, b, sites[b].size)
      && (sites[b].Redirected? ==> DisjointRanges(a, size, sites[b].slot, 4))
  }

  ghost predicate SitesHold(l: Linker, sites: map<nat, Site>) {
    forall a :: a in sites ==> SiteHolds(l, a, sites[a])
  }

  /** `a` is a trampoline for the function that `symbol` stands for. */
  ghost predicate TrampolineFor(libs: Libraries, linked: seq<LinkedFunction>, sites: map<nat, Site>, a: nat,
                                symbol: string)
  {
    && a in sites && sites[a].HostCall? && sites[a].index < |linked|
    && linked[sites[a].index].symbol == symbol
    && ProcTarget(libs, symbol) == Some((symbol, linked[sites[a].index].f))
  }

  ghost predicate CacheHolds(libs: Libraries, l: Linker, sites: map<nat, Site>) {
    forall symbol :: symbol in l.nonLazy ==> TrampolineFor(libs, l.linked, sites, l.nonLazy[symbol], symbol)
  }

  ghost predicate Invariant(libs: Libraries, l: Linker, sites: map<nat, Site>) {
    SitesHold(l, sites) && CacheHolds(libs, l, sites)
  }

  /** Later states only add: linked functions, trampolines and code sites stay what they were. */
  ghost predicate Extends(l: Linker, sites: map<nat, Site>, l': Linker, sites': map<nat, Site>) {
    && l.linked <= l'.linked
    && l.nonLazy.Keys <= l'.nonLazy.Keys && (forall symbol :: symbol in l.nonLazy ==>
                                             l'.nonLazy[symbol] == l.nonLazy[symbol])
    && sites.Keys <= sites'.Keys && (forall a :: a in sites ==> sites'[a] == sites[a])
  }

  lemma ExtendsChain(l: Linker, sites: map<nat, Site>, l': Linker, sites': map<nat, Site>,
                     l'': Linker, sites'': map<nat, Site>)
    requires Extends(l, sites, l', sites') && Extends(l', sites', l'', sites'')
    ensures Extends(l, sites, l'', sites'')
  {
  }

  datatype Step = LinkStub(svcPc: nat, block: word) | GetProcAddress(symbol: string, block: word)

  function Next(libs: Libraries, l: Linker, step: Step): Linker
    requires |l.linked| < MAX_LINKED
    requires step.LinkStub? ==> Located(libs, step.svcPc)
  {
    match step
    case LinkStub(svcPc, block) => LazyLink(libs, l, svcPc, block).0
    case GetProcAddress(symbol, block) => CreateProcAddress(libs, l, symbol, block).0
  }

  /** The sites together with the trampoline a step creates, if it creates one. */
  function WithTrampoline(sites: map<nat, Site>, l: Linker, l': Linker, block: word): map<nat, Site> {
    if l'.nonLazy == l.nonLazy then sites else sites[block := HostCall(|l.linked|, TRAMPOLINE_SIZE)]
  }

  function StubSite(libs: Libraries, l: Linker, svcPc: nat, block: word): Site
    requires Located(libs, svcPc) && |l.linked| < MAX_LINKED
  {
    var size, pic := EntrySize(libs, svcPc), PicOffset(libs, svcPc);
    var (l', handler) := LazyLink(libs, l, svcPc, block);
    if handler.Some? then HostCall(|l.linked|, size)
    else
      var slot := SymbolPointer(l'.mem, svcPc, size);
      Redirected(size, slot, l'.mem.Read(slot))
  }

  function NextSites(libs: Libraries, l: Linker, sites: map<nat, Site>, step: Step): map<nat, Site>
    requires |l.linked| < MAX_LINKED
    requires step.LinkStub? ==> Located(libs, step.svcPc)
  {
    var sites' := WithTrampoline(sites, l, Next(libs, l, step), step.block);
    if step.LinkStub? then sites'[step.svcPc := StubSite(libs, l, step.svcPc, step.block)] else sites'
  }

  /**
   A stub awaiting its lazy link: it traps for it, its slot is usable, and the memory the allocator
   would hand out for a trampoline is mapped and overlaps neither.
   */
  ghost predicate Linkable(libs: Libraries, l: Linker, a: nat, block: word) {
    && l.mem.nullSegmentSize <= block
    && Located(libs, a)
    && var size := EntrySize(libs, a);
       && Supported(size) && KeepsOpcode(size, PicOffset(libs, a))
       && IsTrapStub(l.mem, a, size, LazyLinkSvc(size))
       && DisjointRanges(a, size, block, TRAMPOLINE_SIZE)
       && var slot := LinkedSlot(l.mem, a, size, PicOffset(libs, a));
          UsableSlot(l.mem, slot, a, size) && DisjointRanges(slot, 4, block, TRAMPOLINE_SIZE)
  }

  /**
   A step as the emulator takes it: the allocator hands out mapped memory that is not in use, a lazy
   link happens at a stub that traps for it, and stubs and pointer slots do not overlap one another.
   */
  ghost predicate Allowed(libs: Libraries, l: Linker, sites: map<nat, Site>, step: Step) {
    && |l.linked| < MAX_LINKED
    && l.mem.nullSegmentSize <= step.block && Apart(sites, step.block, TRAMPOLINE_SIZE)
    && (step.LinkStub? ==>
          && Linkable(libs, l, step.svcPc, step.block)
          && var size, a := EntrySize(libs, step.svcPc), step.svcPc;
             && ApartFromOthers(sites, a, size)
             && Apart(sites, LinkedSlot(l.mem, a, size, PicOffset(libs, a)), 4))
  }

  /** The linker never takes a trap at code it has already linked for a stub awaiting linking. */
  lemma LinkedSitesDoNotTrapAgain(l: Linker, a: nat, site: Site, size: nat)
    requires SiteHolds(l, a, site)
    ensures !IsTrapStub(l.mem, a, size, LazyLinkSvc(size))
  {
    if site.Redirected? && site.size != 4 {
      assert WordAt(l.mem, a, 0) == OriginalInstructions(site.size)[0];
    }
  }

  lemma NotASite(l: Linker, sites: map<nat, Site>, a: nat, size: nat)
    requires SitesHold(l, sites)
    requires Apart(sites, a, size) && size > 0
    ensures a !in sites
  {
    forall c | c in sites ensures sites[c].size > 0 {
      assert SiteHolds(l, c, sites[c]);
    }
  }

  lemma SiteFramed(l: Linker, l': Linker, a: nat, site: Site)
    requires SiteHolds(l, a, site) && l.linked <= l'.linked
    requires SameBytes(l.mem, l'.mem, a, site.size)
    requires site.Redirected? ==> SameBytes(l.mem, l'.mem, site.slot, 4)
    ensures SiteHolds(l', a, site)
  {
    match site
    case HostCall(i, size) =>
      SameWord(l.mem, l'.mem, a, size, a);
      if size != 4 {
        SameWord(l.mem, l'.mem, a, size, a + 4);
      }
    case Redirected(size, slot, target) =>
      LinkedStubFramed(l.mem, l'.mem, a, size, slot, target);
  }

  /** Writing only in ranges apart from the sites keeps them all. */
  lemma SitesFramed(l: Linker, l': Linker, sites: map<nat, Site>, a: nat, size: nat, b: nat, size': nat)
    requires SitesHold(l, sites)
    requires Apart(sites, a, size) && Apart(sites, b, size')
    requires l.linked <= l'.linked && l.mem.nullSegmentSize == l'.mem.nullSegmentSize
    requires forall c: nat :: !(a <= c < a + size) && !(b <= c < b + size') ==> l'.mem.Byte(c) == l.mem.Byte(c)
    ensures SitesHold(l', sites)
  {
    forall c | c in sites ensures SiteHolds(l', c, sites[c]) {
      SiteFramed(l, l', c, sites[c]);
    }
  }

  lemma TrampolineWritten(l: Linker, symbol: string, f: HostFunction, block: word)
    requires |l.linked| < MAX_LINKED && l.mem.nullSegmentSize <= block
    ensures var l' := CreateGuestFunction(l, symbol, f, block).0;
            && SiteHolds(l', block, HostCall(|l.linked|, TRAMPOLINE_SIZE))
            && l'.mem.nullSegmentSize == l.mem.nullSegmentSize
            && forall c: nat :: !(block <= c < block + TRAMPOLINE_SIZE) ==> l'.mem.Byte(c) == l.mem.Byte(c)
  {
    var w := EncodeSvc(SvcFor(|l.linked|, TRAMPOLINE_SIZE));
    var m1 := l.mem.Write(block, w);
    ByteAfterWrite(l.mem, block, w);
    WordWritten(l.mem, block, w);
    ByteAfterWrite(m1, block + 4, RETURN_WORD);
    WordWritten(m1, block + 4, RETURN_WORD);
    OtherWordKept(m1, block + 4, RETURN_WORD, block);
  }

  /** Making (or finding) a trampoline keeps the invariant and only adds. */
  lemma CachedKeepsInvariant(libs: Libraries, l: Linker, sites: map<nat, Site>, symbol: string, f: HostFunction,
                             block: word)
    requires Invariant(libs, l, sites) && |l.linked| < MAX_LINKED && ProcTarget(libs, symbol) == Some((symbol, f))
    requires l.mem.nullSegmentSize <= block && Apart(sites, block, TRAMPOLINE_SIZE)
    ensures var l' := CachedGuestFunction(l, symbol, f, block).0;
            var sites' := WithTrampoline(sites, l, l', block);
            Invariant(libs, l', sites') && Extends(l, sites, l', sites')
  {
    if symbol !in l.nonLazy {
      NewTrampolineKeepsInvariant(libs, l, sites, symbol, f, block);
      assert symbol in CachedGuestFunction(l, symbol, f, block).0.nonLazy;
    }
  }

  lemma NewTrampolineKeepsInvariant(libs: Libraries, l: Linker, sites: map<nat, Site>, symbol: string, f: HostFunction,
                                    block: word)
    requires Invariant(libs, l, sites) && |l.linked| < MAX_LINKED
    requires symbol !in l.nonLazy && ProcTarget(libs, symbol) == Some((symbol, f))
    requires l.mem.nullSegmentSize <= block && Apart(sites, block, TRAMPOLINE_SIZE)
    ensures var l' := CachedGuestFunction(l, symbol, f, block).0;
            var sites' := sites[block := HostCall(|l.linked|, TRAMPOLINE_SIZE)];
            Invariant(libs, l', sites') && Extends(l, sites, l', sites')
  {
    var l' := CachedGuestFunction(l, symbol, f, block).0;
    var sites' := sites[block := HostCall(|l.linked|, TRAMPOLINE_SIZE)];
    assert SitesHold(l', sites') && block !in sites by {
      TrampolineWritten(l, symbol, f, block);
      SitesFramed(l, l', sites, block, TRAMPOLINE_SIZE, block, TRAMPOLINE_SIZE);
      NotASite(l, sites, block, TRAMPOLINE_SIZE);
    }
    forall k | k in l'.nonLazy ensures TrampolineFor(libs, l'.linked, sites', l'.nonLazy[k], k) {
      if k != symbol {
        assert TrampolineFor(libs, l.linked, sites, l.nonLazy[k], k);
      }
    }
  }

  /** Cached trampolines survive whatever only adds sites and linked functions. */
  lemma CacheKept(libs: Libraries, l: Linker, sites: map<nat, Site>, l': Linker, sites': map<nat, Site>)
    requires CacheHolds(libs, l, sites) && Extends(l, sites, l', sites') && l'.nonLazy == l.nonLazy
    ensures CacheHolds(libs, l', sites')
  {
    forall k | k in l'.nonLazy ensures TrampolineFor(libs, l'.linked, sites', l'.nonLazy[k], k) {
      assert TrampolineFor(libs, l.linked, sites, l.nonLazy[k], k);
    }
  }

  /** Pointing a stub at a target keeps the invariant and only adds the redirected stub. */
  lemma RedirectKeepsInvariant(libs: Libraries, l: Linker, sites: map<nat, Site>, target: word, a: nat, size: nat,
                               pic: word)
    requires Invariant(libs, l, sites) && a !in sites && Supported(size) && KeepsOpcode(size, pic)
    requires l.mem.nullSegmentSize <= a && Apart(sites, a, size)
    requires var slot := LinkedSlot(l.mem, a, size, pic); UsableSlot(l.mem, slot, a, size) && Apart(sites, slot, 4)
    ensures var l' := Redirect(l, target, a, size, pic);
            var slot := SymbolPointer(l'.mem, a, size);
            var sites' := sites[a := Redirected(size, slot, l'.mem.Read(slot))];
            && slot == LinkedSlot(l.mem, a, size, pic) && l'.mem.Read(slot) == target
            && Invariant(libs, l', sites') && Extends(l, sites, l', sites')
  {
    var l', slot := Redirect(l, target, a, size, pic), LinkedSlot(l.mem, a, size, pic);
    LinkingRestores(l.mem, target, a, size, pic);
    LinkingFrame(l.mem, target, a, size, pic);
    SitesFramed(l, l', sites, a, size, slot, 4);
    CacheKept(libs, l, sites, l', sites[a := Redirected(size, slot, target)]);
  }

  lemma HostStubKeepsInvariant(libs: Libraries, l: Linker, sites: map<nat, Site>, linked: LinkedFunction, a: nat,
                               size: nat)
    requires Invariant(libs, l, sites) && a !in sites && Supported(size) && |l.linked| < MAX_LINKED
    requires IsTrapStub(l.mem, a, size, LazyLinkSvc(size)) && Apart(sites, a, size)
    ensures var l' := Linker(l.mem.Write(a, EncodeSvc(SvcFor(|l.linked|, size))), l.linked + [linked], l.nonLazy);
            var sites' := sites[a := HostCall(|l.linked|, size)];
            Invariant(libs, l', sites') && Extends(l, sites, l', sites')
  {
    var w := EncodeSvc(SvcFor(|l.linked|, size));
    var l' := Linker(l.mem.Write(a, w), l.linked + [linked], l.nonLazy);
    ByteAfterWrite(l.mem, a, w);
    WordWritten(l.mem, a, w);
    OtherWordKept(l.mem, a, w, a + 4);
    SitesFramed(l, l', sites, a, size, a, size);
    CacheKept(libs, l, sites, l', sites[a := HostCall(|l.linked|, size)]);
  }

  lemma SlotDependsOnStub(m: Memory, m': Memory, a: nat, size: nat, pic: word)
    requires Supported(size) && m.nullSegmentSize <= a && SameBytes(m, m', a, size)
    ensures LinkedSlot(m, a, size, pic) == LinkedSlot(m', a, size, pic)
  {
    SlotValue(m, a, size, pic);
    SlotValue(m', a, size, pic);
    if size != 4 {
      SameWord(m, m', a, size, a + size - 4);
    }
  }

  /** A stub away from a new trampoline keeps its slot. */
  lemma TrampolineLeavesSlot(l: Linker, symbol: string, f: HostFunction, a: nat, size: nat, pic: word, block: word)
    requires |l.linked| < MAX_LINKED && l.mem.nullSegmentSize <= block
    requires Supported(size) && l.mem.nullSegmentSize <= a && DisjointRanges(a, size, block, TRAMPOLINE_SIZE)
    ensures var m := CachedGuestFunction(l, symbol, f, block).0.mem;
            LinkedSlot(m, a, size, pic) == LinkedSlot(l.mem, a, size, pic) && m.nullSegmentSize == l.mem.nullSegmentSize
  {
    if symbol !in l.nonLazy {
      TrampolineWritten(l, symbol, f, block);
      SlotDependsOnStub(l.mem, CachedGuestFunction(l, symbol, f, block).0.mem, a, size, pic);
    }
  }

  lemma TrampolineStaysApart(sites: map<nat, Site>, l: Linker, l': Linker, block: word, a: nat, size: nat)
    requires Apart(sites, a, size) && DisjointRanges(a, size, block, TRAMPOLINE_SIZE)
    ensures Apart(WithTrampoline(sites, l, l', block), a, size)
  {
  }

  /** A lazy link that first makes a trampoline for an intercepted symbol. */
  lemma InterceptKeepsInvariant(libs: Libraries, l: Linker, sites: map<nat, Site>, a: nat, size: nat, pic: word,
                                block: word)
    requires Invariant(libs, l, sites) && |l.linked| < MAX_LINKED
    requires Supported(size) && KeepsOpcode(size, pic) && l.mem.nullSegmentSize <= a && Apart(sites, a, size)
    requires l.mem.nullSegmentSize <= block && Apart(sites, block, TRAMPOLINE_SIZE)
    requires DisjointRanges(a, size, block, TRAMPOLINE_SIZE)
    requires var slot := LinkedSlot(l.mem, a, size, pic);
             UsableSlot(l.mem, slot, a, size) && Apart(sites, slot, 4)
                 && DisjointRanges(slot, 4, block, TRAMPOLINE_SIZE)
    ensures var (l1, addr) := CachedGuestFunction(l, CXA_THROW, CxxAbiThrowIntercept, block);
            var l' := Redirect(l1, addr, a, size, pic);
            var slot := SymbolPointer(l'.mem, a, size);
            var sites' := WithTrampoline(sites, l, l1, block)[a := Redirected(size, slot, l'.mem.Read(slot))];
            Invariant(libs, l', sites') && Extends(l, sites, l', sites')
  {
    var (l1, addr) := CachedGuestFunction(l, CXA_THROW, CxxAbiThrowIntercept, block);
    var sites1, slot := WithTrampoline(sites, l, l1, block), LinkedSlot(l.mem, a, size, pic);
    CachedKeepsInvariant(libs, l, sites, CXA_THROW, CxxAbiThrowIntercept, block);
    TrampolineLeavesSlot(l, CXA_THROW, CxxAbiThrowIntercept, a, size, pic, block);
    TrampolineStaysApart(sites, l, l1, block, a, size);
    TrampolineStaysApart(sites, l, l1, block, slot, 4);
    NotASite(l1, sites1, a, size);
    RedirectKeepsInvariant(libs, l1, sites1, addr, a, size, pic);
    ExtendsChain(l, sites, l1, sites1, Redirect(l1, addr, a, size, pic), sites1[a := Redirected(size, slot, addr)]);
  }

  lemma AwaitingStubIsNoSite(l: Linker, sites: map<nat, Site>, a: nat, size: nat)
    requires SitesHold(l, sites) && IsTrapStub(l.mem, a, size, LazyLinkSvc(size)) && ApartFromOthers(sites, a, size)
    ensures a !in sites && Apart(sites, a, size)
  {
    if a in sites {
      LinkedSitesDoNotTrapAgain(l, a, sites[a], size);
    }
  }

  lemma LinkStepKeepsInvariant(libs: Libraries, l: Linker, sites: map<nat, Site>, a: nat, block: word)
    requires Invariant(libs, l, sites) && Allowed(libs, l, sites, LinkStub(a, block))
    ensures var step := LinkStub(a, block);
            Invariant(libs, Next(libs, l, step), NextSites(libs, l, sites, step))
            && Extends(l, sites, Next(libs, l, step), NextSites(libs, l, sites, step))
  {
    AwaitingStubIsNoSite(l, sites, a, EntrySize(libs, a));
    if SymbolAt(libs, a) !in l.nonLazy && SymbolAt(libs, a) == CXA_THROW {
      InterceptedLinkKeepsInvariant(libs, l, sites, a, block);
    } else {
      PlainLinkKeepsInvariant(libs, l, sites, a, block);
    }
  }

  lemma InterceptedLinkKeepsInvariant(libs: Libraries, l: Linker, sites: map<nat, Site>, a: nat, block: word)
    requires Invariant(libs, l, sites) && Allowed(libs, l, sites, LinkStub(a, block))
    requires a !in sites && Apart(sites, a, EntrySize(libs, a))
    requires SymbolAt(libs, a) !in l.nonLazy && SymbolAt(libs, a) == CXA_THROW
    ensures var step := LinkStub(a, block);
            Invariant(libs, Next(libs, l, step), NextSites(libs, l, sites, step))
            && Extends(l, sites, Next(libs, l, step), NextSites(libs, l, sites, step))
  {
    InterceptKeepsInvariant(libs, l, sites, a, EntrySize(libs, a), PicOffset(libs, a), block);
  }

  lemma PlainLinkKeepsInvariant(libs: Libraries, l: Linker, sites: map<nat, Site>, a: nat, block: word)
    requires Invariant(libs, l, sites) && Allowed(libs, l, sites, LinkStub(a, block))
    requires a !in sites && Apart(sites, a, EntrySize(libs, a))
    requires SymbolAt(libs, a) in l.nonLazy || SymbolAt(libs, a) != CXA_THROW
    ensures var step := LinkStub(a, block);
            Invariant(libs, Next(libs, l, step), NextSites(libs, l, sites, step))
            && Extends(l, sites, Next(libs, l, step), NextSites(libs, l, sites, step))
  {
    var size, pic, symbol := EntrySize(libs, a), PicOffset(libs, a), SymbolAt(libs, a);
    if symbol in l.nonLazy {
      RedirectKeepsInvariant(libs, l, sites, l.nonLazy[symbol], a, size, pic);
    } else {
      match FirstExport(libs.bins, symbol)
      case Some(addr) => RedirectKeepsInvariant(libs, l, sites, addr, a, size, pic);
      case None =>
        var f := HostFor(libs, symbol);
        HostStubKeepsInvariant(libs, l, sites, LinkedFunction(symbol, f), a, size);
    }
  }

  lemma ProcStepKeepsInvariant(libs: Libraries, l: Linker, sites: map<nat, Site>, symbol: string, block: word)
    requires Invariant(libs, l, sites) && Allowed(libs, l, sites, GetProcAddress(symbol, block))
    ensures var step := GetProcAddress(symbol, block);
            Invariant(libs, Next(libs, l, step), NextSites(libs, l, sites, step))
            && Extends(l, sites, Next(libs, l, step), NextSites(libs, l, sites, step))
  {
    match ProcTarget(libs, symbol)
    case Some((key, f)) => CachedKeepsInvariant(libs, l, sites, key, f, block);
    case None =>
  }

  /** Every allowed step keeps the invariant and only adds. */
  lemma StepKeepsInvariant(libs: Libraries, l: Linker, sites: map<nat, Site>, step: Step)
    requires Invariant(libs, l, sites) && Allowed(libs, l, sites, step)
    ensures Invariant(libs, Next(libs, l, step), NextSites(libs, l, sites, step))
    ensures Extends(l, sites, Next(libs, l, step), NextSites(libs, l, sites, step))
  {
    match step
    case GetProcAddress(symbol, block) => ProcStepKeepsInvariant(libs, l, sites, symbol, block);
    case LinkStub(a, block) => LinkStepKeepsInvariant(libs, l, sites, a, block);
  }

  ghost predicate AllowedRun(libs: Libraries, l: Linker, sites: map<nat, Site>, steps: seq<Step>)
    decreases steps
  {
    steps == [] ||
    (Allowed(libs, l, sites, steps[0])
     && AllowedRun(libs, Next(libs, l, steps[0]), NextSites(libs, l, sites, steps[0]), steps[1..]))
  }

  ghost function AfterRun(libs: Libraries, l: Linker, sites: map<nat, Site>, steps: seq<Step>): (Linker, map<nat, Site>)
    requires AllowedRun(libs, l, sites, steps)
    decreases steps
  {
    if steps == [] then (l, sites)
    else AfterRun(libs, Next(libs, l, steps[0]), NextSites(libs, l, sites, steps[0]), steps[1..])
  }

  /** A run is its steps, one after the other. */
  lemma {:induction false} LastStepOfRun(libs: Libraries, l: Linker, sites: map<nat, Site>, steps: seq<Step>,
                                         step: Step)
    requires AllowedRun(libs, l, sites, steps + [step])
    ensures AllowedRun(libs, l, sites, steps)
    ensures var (l', sites') := AfterRun(libs, l, sites, steps);
            && Allowed(libs, l', sites', step)
            && AfterRun(libs, l, sites, steps + [step]) == (Next(libs, l', step), NextSites(libs, l', sites', step))
    decreases steps
  {
    var all := steps + [step];
    if steps == [] {
      assert all[0] == step && all[1..] == [];
    } else {
      assert all[0] == steps[0] && all[1..] == steps[1..] + [step];
      LastStepOfRun(libs, Next(libs, l, steps[0]), NextSites(libs, l, sites, steps[0]), steps[1..], step);
    }
  }

  /** Over every run, the invariant holds and nothing that was linked or cached ever changes. */
  lemma {:induction false} RunKeepsInvariant(libs: Libraries, l: Linker, sites: map<nat, Site>, steps: seq<Step>)
    requires Invariant(libs, l, sites) && AllowedRun(libs, l, sites, steps)
    ensures var (l', sites') := AfterRun(libs, l, sites, steps);
            Invariant(libs, l', sites') && Extends(l, sites, l', sites')
    decreases steps
  {
    if steps != [] {
      StepKeepsInvariant(libs, l, sites, steps[0]);
      RunKeepsInvariant(libs, Next(libs, l, steps[0]), NextSites(libs, l, sites, steps[0]), steps[1..]);
    }
  }

  /** The code at `a` traps with `svc`, which calls `f` and then returns to the caller. */
  ghost predicate CallsAndReturns(l: Linker, a: nat, svc: nat, f: HostFunction) {
    && DispatchSvc(l.linked, svc) == Call(f)
    && forall regs: Registers, n: nat {:trigger Execute(l.mem, a, regs, n)} :: n >= 3 ==>
         && Execute(l.mem, a, regs, n) == Trap(svc, a)
         && AfterHostCall(l.mem, svc, a, regs, n) == Jump(regs[LR])
  }

  lemma HostCallSiteCalls(l: Linker, a: nat, site: Site)
    requires SiteHolds(l, a, site) && site.HostCall?
    ensures CallsAndReturns(l, a, SvcFor(site.index, site.size), l.linked[site.index].f)
    ensures HasReturnFlag(SvcFor(site.index, site.size)) <==> site.size == 4
  {
    var svc := SvcFor(site.index, site.size);
    forall regs: Registers, n: nat | n >= 3
      ensures Execute(l.mem, a, regs, n) == Trap(svc, a) && AfterHostCall(l.mem, svc, a, regs, n) == Jump(regs[LR])
    {
      TrapStubTraps(l.mem, a, site.size, svc, regs, n);
    }
  }

  /** A function linked at some point keeps being called from its site, whatever happens later. */
  lemma LinkedFunctionKeepsBeingCalled(libs: Libraries, l: Linker, sites: map<nat, Site>, steps: seq<Step>, a: nat)
    requires Invariant(libs, l, sites) && AllowedRun(libs, l, sites, steps)
    requires a in sites && sites[a].HostCall?
    ensures var svc, f := SvcFor(sites[a].index, sites[a].size), l.linked[sites[a].index].f;
            && CallsAndReturns(l, a, svc, f)
            && CallsAndReturns(AfterRun(libs, l, sites, steps).0, a, svc, f)
            && (HasReturnFlag(svc) <==> sites[a].size == 4)
  {
    RunKeepsInvariant(libs, l, sites, steps);
    HostCallSiteCalls(l, a, sites[a]);
    HostCallSiteCalls(AfterRun(libs, l, sites, steps).0, a, sites[a]);
  }

  /** A redirected stub keeps jumping to the function it was linked to. */
  lemma RedirectedStubKeepsTarget(libs: Libraries, l: Linker, sites: map<nat, Site>, steps: seq<Step>, a: nat,
                                  regs: Registers, n: nat)
    requires Invariant(libs, l, sites) && AllowedRun(libs, l, sites, steps)
    requires a in sites && sites[a].Redirected? && a + sites[a].size <= ADDRESS_SPACE && n >= 3
    ensures Execute(AfterRun(libs, l, sites, steps).0.mem, a, regs, n) == Jump(sites[a].target)
  {
    RunKeepsInvariant(libs, l, sites, steps);
    LinkedStubJumps(AfterRun(libs, l, sites, steps).0.mem, a, sites[a].size, sites[a].slot, sites[a].target, regs, n);
  }

  /** A symbol's cached trampoline keeps its address and calls the function that the symbol stands for. */
  lemma TrampolineKeepsAddress(libs: Libraries, l: Linker, sites: map<nat, Site>, steps: seq<Step>, symbol: string)
    requires Invariant(libs, l, sites) && AllowedRun(libs, l, sites, steps) && symbol in l.nonLazy
    ensures var l' := AfterRun(libs, l, sites, steps).0;
            && symbol in l'.nonLazy && l'.nonLazy[symbol] == l.nonLazy[symbol]
            && exists svc, f :: ProcTarget(libs, symbol) == Some((symbol, f))
                                && CallsAndReturns(l', l.nonLazy[symbol], svc, f)
  {
    var a := l.nonLazy[symbol];
    assert TrampolineFor(libs, l.linked, sites, a, symbol);
    RunKeepsInvariant(libs, l, sites, steps);
    LinkedFunctionKeepsBeingCalled(libs, l, sites, steps, a);
  }

  // ---------- What a stub is linked to ----------

  /** What a stub does once it is linked: jump to guest code, or call a host function and return. */
  datatype Service = JumpTo(target: word) | CallHost(f: HostFunction)

  /**
   What a stub linked for `symbol` has to do: go to the symbol's trampoline if there is one, else to
   the first binary that exports the symbol, else call the host's function.
   */
  function ServiceFor(libs: Libraries, nonLazy: map<string, word>, symbol: string): Service {
    if symbol in nonLazy then JumpTo(nonLazy[symbol])
    else match FirstExport(libs.bins, symbol)
      case Some(addr) => JumpTo(addr)
      case None => CallHost(HostFor(libs, symbol))
  }

  ghost predicate Provides(l: Linker, a: nat, service: Service) {
    match service
    case JumpTo(target) =>
      forall regs: Registers, n: nat {:trigger Execute(l.mem, a, regs, n)} :: n >= 3 ==>
          Execute(l.mem, a, regs, n) == Jump(target)
    case CallHost(f) => exists svc :: CallsAndReturns(l, a, svc, f)
  }

  ghost predicate SiteProvides(l: Linker, site: Site, service: Service) {
    match service
    case JumpTo(target) => site.Redirected? && site.target == target
    case CallHost(f) => site.HostCall? && site.index < |l.linked| && l.linked[site.index].f == f
  }

  lemma SiteServes(l: Linker, a: nat, site: Site, service: Service)
    requires SiteHolds(l, a, site) && SiteProvides(l, site, service)
    requires site.Redirected? ==> a + site.size <= ADDRESS_SPACE
    ensures Provides(l, a, service)
  {
    match site
    case HostCall(i, size) => HostCallSiteCalls(l, a, site);
    case Redirected(size, slot, target) =>
      forall regs: Registers, n: nat | n >= 3 ensures Execute(l.mem, a, regs, n) == Jump(target) {
        LinkedStubJumps(l.mem, a, size, slot, target, regs, n);
      }
  }

  /** Restoring a stub whose slot is usable leaves a redirected site with the wanted target. */
  lemma RedirectedSite(l: Linker, target: word, a: nat, size: nat, pic: word)
    requires Supported(size) && KeepsOpcode(size, pic) && l.mem.nullSegmentSize <= a
    requires UsableSlot(l.mem, LinkedSlot(l.mem, a, size, pic), a, size)
    ensures var l' := Redirect(l, target, a, size, pic);
            var slot := SymbolPointer(l'.mem, a, size);
            l'.mem.Read(slot) == target && SiteHolds(l', a, Redirected(size, slot, target))
  {
    LinkingRestores(l.mem, target, a, size, pic);
  }

  /** A trampoline made first does not get in the way. */
  lemma InterceptedSite(l: Linker, a: nat, size: nat, pic: word, block: word)
    requires |l.linked| < MAX_LINKED && l.mem.nullSegmentSize <= block
    requires Supported(size) && KeepsOpcode(size, pic) && l.mem.nullSegmentSize <= a
    requires DisjointRanges(a, size, block, TRAMPOLINE_SIZE)
    requires UsableSlot(l.mem, LinkedSlot(l.mem, a, size, pic), a, size)
    ensures var (l1, addr) := CachedGuestFunction(l, CXA_THROW, CxxAbiThrowIntercept, block);
            var l' := Redirect(l1, addr, a, size, pic);
            var slot := SymbolPointer(l'.mem, a, size);
            l'.mem.Read(slot) == addr && SiteHolds(l', a, Redirected(size, slot, addr))
  {
    var (l1, addr) := CachedGuestFunction(l, CXA_THROW, CxxAbiThrowIntercept, block);
    if CXA_THROW !in l.nonLazy {
      TrampolineWritten(l, CXA_THROW, CxxAbiThrowIntercept, block);
    }
    SlotDependsOnStub(l.mem, l1.mem, a, size, pic);
    RedirectedSite(l1, addr, a, size, pic);
  }

  lemma HostStubSite(l: Linker, linked: LinkedFunction, a: nat, size: nat)
    requires Supported(size) && |l.linked| < MAX_LINKED && IsTrapStub(l.mem, a, size, LazyLinkSvc(size))
    ensures var l' := Linker(l.mem.Write(a, EncodeSvc(SvcFor(|l.linked|, size))), l.linked + [linked], l.nonLazy);
            SiteHolds(l', a, HostCall(|l.linked|, size))
  {
    var w := EncodeSvc(SvcFor(|l.linked|, size));
    WordWritten(l.mem, a, w);
    OtherWordKept(l.mem, a, w, a + 4);
  }

  /** Lazy linking makes of the stub a site that does what its symbol's service is. */
  lemma LinkedSite(libs: Libraries, l: Linker, a: nat, block: word)
    requires |l.linked| < MAX_LINKED && Linkable(libs, l, a, block)
    ensures var (l', handler) := LazyLink(libs, l, a, block);
            var service, site := ServiceFor(libs, l'.nonLazy, SymbolAt(libs, a)), StubSite(libs, l, a, block);
            && SiteHolds(l', a, site) && SiteProvides(l', site, service) && site.size == EntrySize(libs, a)
            && handler == (if service.CallHost? then Some(service.f) else None)
            && (site.HostCall? ==> l'.linked[site.index].symbol == SymbolAt(libs, a))
  {
    var size, pic, symbol := EntrySize(libs, a), PicOffset(libs, a), SymbolAt(libs, a);
    if symbol in l.nonLazy {
      RedirectedSite(l, l.nonLazy[symbol], a, size, pic);
    } else if symbol == CXA_THROW {
      InterceptedSite(l, a, size, pic, block);
    } else {
      match FirstExport(libs.bins, symbol)
      case Some(addr) => RedirectedSite(l, addr, a, size, pic);
      case None => HostStubSite(l, LinkedFunction(symbol, HostFor(libs, symbol)), a, size);
    }
  }

  /** The stub provides its symbol's service as soon as it is linked. */
  lemma LinkProvides(libs: Libraries, l: Linker, a: nat, block: word)
    requires |l.linked| < MAX_LINKED && Linkable(libs, l, a, block) && a + EntrySize(libs, a) <= ADDRESS_SPACE
    ensures var l' := LazyLink(libs, l, a, block).0;
            var service := ServiceFor(libs, l'.nonLazy, SymbolAt(libs, a));
            && Provides(l', a, service)
            && LazyLink(libs, l, a, block).1 == (if service.CallHost? then Some(service.f) else None)
  {
    var l' := LazyLink(libs, l, a, block).0;
    LinkedSite(libs, l, a, block);
    SiteServes(l', a, StubSite(libs, l, a, block), ServiceFor(libs, l'.nonLazy, SymbolAt(libs, a)));
  }

  /**
   A lazily linked stub provides the service of its own symbol: the one it was linked to, over every
   further run, and a host call is recorded under that symbol.
   */
  lemma StubServesItsSymbol(libs: Libraries, l: Linker, sites: map<nat, Site>, a: nat, block: word, steps: seq<Step>)
    requires Invariant(libs, l, sites) && Allowed(libs, l, sites, LinkStub(a, block))
    requires a + EntrySize(libs, a) <= ADDRESS_SPACE
    requires var link := LinkStub(a, block);
             AllowedRun(libs, Next(libs, l, link), NextSites(libs, l, sites, link), steps)
    ensures var l1, sites1 := Next(libs, l, LinkStub(a, block)), NextSites(libs, l, sites, LinkStub(a, block));
            var l2, symbol := AfterRun(libs, l1, sites1, steps).0, SymbolAt(libs, a);
            && Provides(l2, a, ServiceFor(libs, l1.nonLazy, symbol))
            && (sites1[a].HostCall? ==> sites1[a].index < |l2.linked| && l2.linked[sites1[a].index].symbol == symbol)
  {
    var l1, sites1 := Next(libs, l, LinkStub(a, block)), NextSites(libs, l, sites, LinkStub(a, block));
    StepKeepsInvariant(libs, l, sites, LinkStub(a, block));
    LinkedSite(libs, l, a, block);
    ProvidedOverRuns(libs, l1, sites1, steps, a, ServiceFor(libs, l1.nonLazy, SymbolAt(libs, a)));
  }

  /**
   The stub goes to the trampoline of its name if there is one, else to the first binary that exports the
   name, else it calls the host's function of that name, or one that does nothing if the host has none.
   */
  ghost predicate Serves(libs: Libraries, l: Linker, nonLazy: map<string, word>, a: nat, name: string) {
    && (name in nonLazy ==> Provides(l, a, JumpTo(nonLazy[name])))
    && (name !in nonLazy ==>
          && (forall b: nat :: FirstExporter(libs.bins, b, name) ==>
                Provides(l, a, JumpTo(libs.bins[b].exports[name])))
          && ((forall b :: 0 <= b < |libs.bins| ==> name !in libs.bins[b].exports) ==>
                Provides(l, a, CallHost(if name in libs.hostExports then Exported(name) else Unimplemented))))
  }

  lemma ServiceServes(libs: Libraries, l: Linker, nonLazy: map<string, word>, a: nat, name: string)
    requires Provides(l, a, ServiceFor(libs, nonLazy, name))
    ensures Serves(libs, l, nonLazy, a, name)
  {
    forall b: nat | FirstExporter(libs.bins, b, name)
      ensures FirstExport(libs.bins, name) == Some(libs.bins[b].exports[name])
    {
      FirstExporterWins(libs.bins, b, name);
    }
    FirstExporterWins(libs.bins, 0, name);
  }

  /** `__cxa_throw` is never left to a guest's library. */
  lemma ThrowIsIntercepted(libs: Libraries, l: Linker, a: nat, block: word)
    requires Located(libs, a) && |l.linked| < MAX_LINKED && SymbolAt(libs, a) == "__cxa_throw"
    ensures "__cxa_throw" in LazyLink(libs, l, a, block).0.nonLazy
  {
  }

  /**
   So stub `i` of a binary, once linked, serves the symbol listed for it, over every further run. One for
   `__cxa_throw` goes to a trampoline that calls the emulator's interception.
   */
  lemma OwnedStubServesItsName(libs: Libraries, l: Linker, sites: map<nat, Site>, b: nat, i: nat, name: string,
                               a: nat, block: word, steps: seq<Step>)
    requires OwnsStub(libs.bins, b, i, name, a)
    requires Invariant(libs, l, sites) && Allowed(libs, l, sites, LinkStub(a, block))
    requires a + libs.bins[b].stubs.value.section.entrySize <= ADDRESS_SPACE
    requires var link := LinkStub(a, block);
             AllowedRun(libs, Next(libs, l, link), NextSites(libs, l, sites, link), steps)
    ensures var l1, sites1 := Next(libs, l, LinkStub(a, block)), NextSites(libs, l, sites, LinkStub(a, block));
            var l2 := AfterRun(libs, l1, sites1, steps).0;
            && Serves(libs, l2, l1.nonLazy, a, name)
            && (name == "__cxa_throw" ==>
                  && name in l1.nonLazy && Provides(l2, a, JumpTo(l1.nonLazy[name]))
                  && exists svc :: CallsAndReturns(l2, l1.nonLazy[name], svc, CxxAbiThrowIntercept))
  {
    var l1, sites1 := Next(libs, l, LinkStub(a, block)), NextSites(libs, l, sites, LinkStub(a, block));
    StubIsLocated(libs, b, i, name, a);
    StubServesItsSymbol(libs, l, sites, a, block, steps);
    ServiceServes(libs, AfterRun(libs, l1, sites1, steps).0, l1.nonLazy, a, name);
    if name == "__cxa_throw" {
      ThrowIsIntercepted(libs, l, a, block);
      StepKeepsInvariant(libs, l, sites, LinkStub(a, block));
      TrampolineKeepsAddress(libs, l1, sites1, steps, name);
    }
  }

  lemma LinkingOutcome(libs: Libraries, l: Linker, a: nat, block: word)
    requires Located(libs, a) && |l.linked| < MAX_LINKED
    ensures var (l', handler) := LazyLink(libs, l, a, block);
            var service := ServiceFor(libs, l'.nonLazy, SymbolAt(libs, a));
            && (Linkable(libs, l, a, block) && a + EntrySize(libs, a) <= ADDRESS_SPACE ==>
                  && Provides(l', a, service) && Serves(libs, l', l'.nonLazy, a, SymbolAt(libs, a))
                  && handler == (if service.CallHost? then Some(service.f) else None))
            && (SymbolAt(libs, a) == "__cxa_throw" ==> "__cxa_throw" in l'.nonLazy)
  {
    if Linkable(libs, l, a, block) && a + EntrySize(libs, a) <= ADDRESS_SPACE {
      var l' := LazyLink(libs, l, a, block).0;
      LinkProvides(libs, l, a, block);
      ServiceServes(libs, l', l'.nonLazy, a, SymbolAt(libs, a));
    }
    if SymbolAt(libs, a) == "__cxa_throw" {
      ThrowIsIntercepted(libs, l, a, block);
    }
  }

  lemma ProvidedOverRuns(libs: Libraries, l: Linker, sites: map<nat, Site>, steps: seq<Step>, a: nat, service: Service)
    requires Invariant(libs, l, sites) && AllowedRun(libs, l, sites, steps)
    requires a in sites && SiteProvides(l, sites[a], service)
    requires sites[a].Redirected? ==> a + sites[a].size <= ADDRESS_SPACE
    ensures var l' := AfterRun(libs, l, sites, steps).0;
            && Provides(l', a, service)
            && (sites[a].HostCall? ==> sites[a].index < |l.linked| <= |l'.linked|
                                       && l'.linked[sites[a].index] == l.linked[sites[a].index])
  {
    var (l', sites') := AfterRun(libs, l, sites, steps);
    RunKeepsInvariant(libs, l, sites, steps);
    assert SiteHolds(l', a, sites'[a]);
    SiteServes(l', a, sites[a], service);
  }

  /**
   The bound on the number of linked functions is exact for sites with a return instruction: the
   next SVC number collides with the return flag and is dispatched as something else.
   */
  lemma TooManyFunctionsCollide(linked: seq<LinkedFunction>, i: nat, size: nat)
    requires i < |linked| && size != 4 && SvcFor(i, size) < 0x100_0000
    ensures ClearReturnFlag(SvcFor(i, size)) - SVC_LINKED_FUNCTIONS_BASE == i <==> i < MAX_LINKED
    ensures i == MAX_LINKED ==> DispatchSvc(linked, SvcFor(i, size)) == LinkLazily
  {
  }

  // ---------- The linker as it runs ----------

  /** What `l'` has that `l` had: nothing linked or cached is lost, and only `[block, block + 8)` was written. */
  ghost predicate AddsAtBlock(l: Linker, l': Linker, block: nat) {
    && l.linked <= l'.linked && l'.mem.nullSegmentSize == l.mem.nullSegmentSize
    && (forall symbol :: symbol in l.nonLazy ==> symbol in l'.nonLazy && l'.nonLazy[symbol] == l.nonLazy[symbol])
    && (forall c: nat :: !(block <= c < block + TRAMPOLINE_SIZE) ==> l'.mem.Byte(c) == l.mem.Byte(c))
  }

  lemma TrampolineCalls(l: Linker, symbol: string, f: HostFunction, block: word)
    requires |l.linked| < MAX_LINKED && l.mem.nullSegmentSize <= block
    ensures var l' := CreateGuestFunction(l, symbol, f, block).0;
            CallsAndReturns(l', block, SvcFor(|l.linked|, TRAMPOLINE_SIZE), f) && AddsAtBlock(l, l', block)
  {
    TrampolineWritten(l, symbol, f, block);
    HostCallSiteCalls(CreateGuestFunction(l, symbol, f, block).0, block, HostCall(|l.linked|, TRAMPOLINE_SIZE));
  }

  /** Asking for the same function again gives the same address and changes nothing. */
  lemma ProcAddressIsStable(libs: Libraries, l: Linker, symbol: string, block: word, again: word)
    requires |l.linked| < MAX_LINKED
    ensures var (l', addr) := CreateProcAddress(libs, l, symbol, block);
            |l'.linked| < MAX_LINKED ==> CreateProcAddress(libs, l', symbol, again) == (l', addr)
  {
  }

  lemma CallsInSameCode(l: Linker, l': Linker, a: nat, svc: nat, f: HostFunction)
    requires CallsAndReturns(l, a, svc, f) && l'.mem == l.mem && l'.linked == l.linked
    ensures CallsAndReturns(l', a, svc, f)
  {
  }

  class Dyld {
    var linkedHostFunctions: seq<LinkedFunction>
    var nonLazyHostFunctions: map<string, word>

    constructor ()
      ensures linkedHostFunctions == [] && nonLazyHostFunctions == map[]
    {
      linkedHostFunctions, nonLazyHostFunctions := [], map[];
    }

    ghost function State(mem: Mem): Linker
      reads this, mem
    {
      Linker(mem.contents, linkedHostFunctions, nonLazyHostFunctions)
    }

    /** Code at `addr` that calls `f` and returns; nothing else changes. */
    method NewGuestFunction(mem: Mem, symbol: string, f: HostFunction, block: word) returns (addr: word)
      requires |linkedHostFunctions| < MAX_LINKED
      modifies this, mem
      ensures (State(mem), addr) == CreateGuestFunction(old(State(mem)), symbol, f, block)
      ensures linkedHostFunctions == old(linkedHostFunctions) + [LinkedFunction(symbol, f)]
      ensures nonLazyHostFunctions == old(nonLazyHostFunctions)
      ensures mem.contents.nullSegmentSize <= addr ==>
                && AddsAtBlock(old(State(mem)), State(mem), addr)
                && CallsAndReturns(State(mem), addr, SvcFor(|old(linkedHostFunctions)|, TRAMPOLINE_SIZE), f)
    {
      if mem.contents.nullSegmentSize <= block {
        TrampolineCalls(State(mem), symbol, f, block);
      }
      var svc := |linkedHostFunctions| + SVC_LINKED_FUNCTIONS_BASE;
      linkedHostFunctions := linkedHostFunctions + [LinkedFunction(symbol, f)];
      mem.Write(block, EncodeSvc(svc));
      mem.Write(block + 4, RETURN_WORD);
      addr := block;
    }

    /** The one address of `symbol`: the remembered one, or that of new code which calls `f`. */
    method NewCachedGuestFunction(mem: Mem, symbol: string, f: HostFunction, block: word) returns (addr: word)
      requires |linkedHostFunctions| < MAX_LINKED
      modifies this, mem
      ensures (State(mem), addr) == CachedGuestFunction(old(State(mem)), symbol, f, block)
      ensures symbol in nonLazyHostFunctions && addr == nonLazyHostFunctions[symbol]
      ensures symbol in old(nonLazyHostFunctions) ==> State(mem) == old(State(mem))
      ensures symbol !in old(nonLazyHostFunctions) && mem.contents.nullSegmentSize <= addr ==>
                && AddsAtBlock(old(State(mem)), State(mem), addr)
                && CallsAndReturns(State(mem), addr, SvcFor(|old(linkedHostFunctions)|, TRAMPOLINE_SIZE), f)
    {
      if symbol in nonLazyHostFunctions {
        return nonLazyHostFunctions[symbol];
      }
      addr := NewGuestFunction(mem, symbol, f, block);
      ghost var made := State(mem);
      nonLazyHostFunctions := nonLazyHostFunctions[symbol := addr];
      if mem.contents.nullSegmentSize <= addr {
        CallsInSameCode(made, State(mem), addr, SvcFor(|old(linkedHostFunctions)|, TRAMPOLINE_SIZE), f);
      }
    }

    /**
     The address of a host function by name: none exactly if the host has no such function, and
     otherwise one that a later request or lazy link finds again.
     */
    method CreateProcAddressNoInval(libs: Libraries, mem: Mem, symbol: string, block: word) returns (addr: Option<word>)
      requires |linkedHostFunctions| < MAX_LINKED
      modifies this, mem
      ensures (State(mem), addr) == CreateProcAddress(libs, old(State(mem)), symbol, block)
      ensures addr.None? <==> symbol !in libs.hostExports + {CXA_THROW, STUB_BINDER, "_" + STUB_BINDER}
      ensures addr.None? ==> State(mem) == old(State(mem))
      ensures addr.Some? ==>
                var (key, f) := ProcTarget(libs, symbol).value;
                && key in nonLazyHostFunctions && addr.value == nonLazyHostFunctions[key]
                && (key !in old(nonLazyHostFunctions) && mem.contents.nullSegmentSize <= addr.value ==>
                      && AddsAtBlock(old(State(mem)), State(mem), addr.value)
                      && CallsAndReturns(State(mem), addr.value, SvcFor(|old(linkedHostFunctions)|, TRAMPOLINE_SIZE),
                                         f))
    {
      var found;
      if symbol == STUB_BINDER || symbol == "_" + STUB_BINDER {
        found := NewCachedGuestFunction(mem, STUB_BINDER, DyldStubBinder, block);
      } else if symbol == CXA_THROW {
        found := NewCachedGuestFunction(mem, CXA_THROW, CxxAbiThrowIntercept, block);
      } else if symbol in libs.hostExports {
        found := NewCachedGuestFunction(mem, symbol, Exported(symbol), block);
      } else {
        return None;
      }
      return Some(found);
    }

    /**
     Links the stub that trapped at `svcPc`: from now on it provides its symbol's service. A host
     function to call right away is returned exactly if that service is a host call.
     */
    method DoLazyLink(libs: Libraries, mem: Mem, svcPc: nat, block: word) returns (handler: Option<HostFunction>)
      requires Located(libs, svcPc) && |linkedHostFunctions| < MAX_LINKED
      modifies this, mem
      ensures (State(mem), handler) == LazyLink(libs, old(State(mem)), svcPc, block)
      ensures old(Linkable(libs, State(mem), svcPc, block)) && svcPc + EntrySize(libs, svcPc) <= ADDRESS_SPACE ==>
                var service := ServiceFor(libs, nonLazyHostFunctions, SymbolAt(libs, svcPc));
                && Provides(State(mem), svcPc, service)
                && handler == (if service.CallHost? then Some(service.f) else None)
      ensures forall b: nat, i: nat, name: string ::
                OwnsStub(libs.bins, b, i, name, svcPc) && old(Linkable(libs, State(mem), svcPc, block))
                && svcPc + libs.bins[b].stubs.value.section.entrySize <= ADDRESS_SPACE ==>
                  Serves(libs, State(mem), nonLazyHostFunctions, svcPc, name)
      ensures forall b: nat, i: nat :: OwnsStub(libs.bins, b, i, "__cxa_throw", svcPc) ==>
                "__cxa_throw" in nonLazyHostFunctions
    {
      LinkingOutcome(libs, State(mem), svcPc, block);
      OwnersAgree(libs, svcPc);
      handler := Link(libs, mem, svcPc, block);
    }

    /** The linking itself (src/dyld.rs:1573-1695). */
    method Link(libs: Libraries, mem: Mem, svcPc: nat, block: word) returns (handler: Option<HostFunction>)
      requires Located(libs, svcPc) && |linkedHostFunctions| < MAX_LINKED
      modifies this, mem
      ensures (State(mem), handler) == LazyLink(libs, old(State(mem)), svcPc, block)
    {
      var size, pic, symbol := EntrySize(libs, svcPc), PicOffset(libs, svcPc), SymbolAt(libs, svcPc);
      if symbol in nonLazyHostFunctions {
        var _ := LinkByRestoringStub(mem, nonLazyHostFunctions[symbol], svcPc, size, pic);
        return None;
      }
      if symbol == CXA_THROW {
        var addr := NewCachedGuestFunction(mem, CXA_THROW, CxxAbiThrowIntercept, block);
        var _ := LinkByRestoringStub(mem, addr, svcPc, size, pic);
        return None;
      }
      var exported := FirstExport(libs.bins, symbol);
      if exported.Some? {
        var _ := LinkByRestoringStub(mem, exported.value, svcPc, size, pic);
        return None;
      }
      var f := HostFor(libs, symbol);
      var svc := |linkedHostFunctions| + SVC_LINKED_FUNCTIONS_BASE;
      if size == 4 {
        svc := svc + SVC_LAZY_LINK_RET_FLAG;
      }
      linkedHostFunctions := linkedHostFunctions + [LinkedFunction(symbol, f)];
      mem.Write(svcPc, EncodeSvc(svc));
      return Some(f);
    }
  }
}

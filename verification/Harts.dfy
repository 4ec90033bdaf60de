// Any number of harts in firmware/head.S.
module Harts {
  import opened Relocation

  // Memory is sequentially consistent, and the load and run ranges are equal or disjoint.

  const LOTTERY_WRAP: int := 0x1_0000_0000

  // Where a hart is; the fields are the registers that are still needed. Every step is one access to memory, a
  // load or a store, with the register work that follows it; drawing a ticket is one atomic addition.
  datatype Pc =
    | Draw
    | SaveLoad
    | Relocate
    | ReadSize(runAddr: int)
    | ReadLoad(runAddr: int, imageSize: int)
    | CopyLower(dst: nat, src: nat, end: nat, target: int)
    | StoreLower(dst: nat, src: nat, end: nat, target: int, word: int)
    | CopyUpper(dst: nat, src: nat, start: nat, target: int)
    | StoreUpper(dst: nat, src: nat, start: nat, target: int, word: int)
    | MarkDone
    | MarkRead(runAddr: int)
    | MarkStore(runAddr: int, loadAddr: int)
    | SaveArg
    | ZeroBss(at: nat)
    | Main
    | Release
    | ReleaseStore(next: int)
    | Leave
    | WaitRun
    | WaitStatus(target: int)
    | Spin
    | Gone(address: int)
    | Hang

  // base is the address of the image whose code the hart executes; won says whether it drew
  // the winning ticket; arg is register a1, which every hart keeps.
  datatype Hart = Hart(pc: Pc, base: int, won: bool, arg: int)

  datatype State = State(mem: seq<int>, harts: seq<Hart>)

  // The linked image at the load address, before any hart has started.
  ghost predicate Initial(l: Layout, img: seq<int>, s: State) {
    && l.Valid() && l.EqualOrDisjoint() && |img| == l.size
    && l.load + l.size <= |s.mem| && l.run + l.size <= |s.mem|
    && s.mem[l.load..l.load + l.size] == img
    && img[HDR_RUN] == l.run && img[HDR_SIZE] == l.size && img[HDR_NEXT_RUN] == l.nextRun
    && img[SPIN] == 0 && img[l.lottery] == 0 && img[l.status] == 0
    && 0 < |s.harts| <= LOTTERY_WRAP
    && forall h :: 0 <= h < |s.harts| ==> AtStart(l, s.harts[h])
  }

  predicate AtStart(l: Layout, h: Hart) {
    h.pc == Draw && h.base == l.load && !h.won
  }

  // What zstage_main must leave alone: the code and header of the running image, the
  // words the other harts watch, and the image at the load address if that is another one.
  predicate Protected(l: Layout, a: int) {
    || l.run <= a < l.run + l.text
    || a == l.load + l.lottery || a == l.load + l.status
    || (l.load != l.run && l.load <= a < l.load + l.size)
  }

  // The steps of one hart ------------------------------------------------------------------

  predicate Stores(mem: seq<int>, mem': seq<int>, a: int, v: int) {
    0 <= a < |mem| && mem' == mem[a := v]
  }

  // Some value is stored at a.
  predicate StoresAny(mem: seq<int>, mem': seq<int>, a: int) {
    0 <= a < |mem| == |mem'| && mem' == mem[a := mem'[a]]
  }

  predicate Readable(mem: seq<int>, a: int) {
    0 <= a < |mem|
  }

  ghost predicate StartStep(l: Layout, mem: seq<int>, h: Hart, mem': seq<int>, h': Hart) {
    match h.pc
    case Draw =>
      var a := h.base + l.lottery;
      && Readable(mem, a)
      && Stores(mem, mem', a, (mem[a] + 1) % LOTTERY_WRAP)
      && h' == (if mem[a] == 0 then h.(pc := SaveLoad, won := true) else h.(pc := WaitRun))
    case SaveLoad =>
      && Stores(mem, mem', h.base + l.loadStart, h.base)
      && h' == h.(pc := Relocate)
    case Relocate =>
      Readable(mem, h.base + HDR_RUN) && mem' == mem && h' == h.(pc := ReadSize(mem[h.base + HDR_RUN]))
    case ReadSize(t0) =>
      Readable(mem, h.base + HDR_SIZE) && mem' == mem && h' == h.(pc := ReadLoad(t0, mem[h.base + HDR_SIZE]))
    case ReadLoad(t0, t1) =>
      && Readable(mem, h.base + l.loadStart) && mem' == mem
      && var t2 := mem[h.base + l.loadStart];
         t0 >= 0 && t1 >= 0 && t2 >= 0 && h' == h.(pc := AfterGuards(l, h.base, t0, t1, t2))
    case _ => false
  }

  // The choice of the copy loop; the guards are those of the relocation of this layout.
  function AfterGuards(l: Layout, base: int, t0: nat, t1: nat, t2: nat): Pc {
    var target := base - t2 + t0;
    if t0 == t2 then MarkDone
    else if target < 0 || GuardsHang(l.(load := t2, run := t0, size := t1)) then Hang
    else if t2 < t0 then CopyUpper(t0 + t1, t2 + t1, t0, target)
    else CopyLower(t0, t2, t0 + t1, target)
  }

  ghost predicate CopyStep(mem: seq<int>, h: Hart, mem': seq<int>, h': Hart) {
    match h.pc
    case CopyLower(dst, src, end, target) =>
      Readable(mem, src) && mem' == mem && h' == h.(pc := StoreLower(dst, src, end, target, mem[src]))
    case StoreLower(dst, src, end, target, word) =>
      && Stores(mem, mem', dst, word)
      && h' == (if dst + 1 < end then h.(pc := CopyLower(dst + 1, src + 1, end, target))
                else h.(pc := MarkDone, base := target))
    case CopyUpper(dst, src, start, target) =>
      && dst > 0 && src > 0 && Readable(mem, src - 1) && mem' == mem
      && h' == h.(pc := StoreUpper(dst, src, start, target, mem[src - 1]))
    case StoreUpper(dst, src, start, target, word) =>
      && dst > 0 && src > 0 && Stores(mem, mem', dst - 1, word)
      && h' == (if start < dst - 1 then h.(pc := CopyUpper(dst - 1, src - 1, start, target))
                else h.(pc := MarkDone, base := target))
    case _ => false
  }

  ghost predicate FinishStep(l: Layout, mem: seq<int>, h: Hart, mem': seq<int>, h': Hart) {
    match h.pc
    case MarkDone =>
      Readable(mem, h.base + HDR_RUN) && mem' == mem && h' == h.(pc := MarkRead(mem[h.base + HDR_RUN]))
    case MarkRead(t1) =>
      Readable(mem, h.base + l.loadStart) && mem' == mem && h' == h.(pc := MarkStore(t1, mem[h.base + l.loadStart]))
    case MarkStore(t1, t2) =>
      Stores(mem, mem', h.base + l.status - t1 + t2, 1) && h' == h.(pc := SaveArg)
    case SaveArg =>
      && Stores(mem, mem', h.base + l.bootArg, h.arg)
      && 0 <= h.base + l.bss
      && h' == h.(pc := ZeroBss(h.base + l.bss))
    case ZeroBss(at) =>
      && Stores(mem, mem', at, 0)
      && h' == h.(pc := if at + 1 < h.base + l.bssEnd then ZeroBss(at + 1) else Main)
    case Main =>
      || (h' == h && exists a :: !Protected(l, a) && StoresAny(mem, mem', a))
      || (mem' == mem && h' == h.(pc := if l.noSpin then Release else Leave))
    case Release =>
      Readable(mem, h.base + HDR_NEXT_RUN) && mem' == mem && h' == h.(pc := ReleaseStore(mem[h.base + HDR_NEXT_RUN]))
    case ReleaseStore(next) =>
      Stores(mem, mem', h.base + SPIN, next) && h' == h.(pc := Leave)
    case Leave =>
      && Readable(mem, h.base + HDR_NEXT_RUN)
      && mem' == mem && h' == h.(pc := Gone(mem[h.base + HDR_NEXT_RUN]))
    case _ => false
  }

  ghost predicate WaitStep(l: Layout, mem: seq<int>, h: Hart, mem': seq<int>, h': Hart) {
    && mem' == mem
    && match h.pc
       case WaitRun =>
         && Readable(mem, h.base + HDR_RUN)
         && var t1 := mem[h.base + HDR_RUN];
            h' == h.(pc := if h.base == t1 then Spin else WaitStatus(t1))
       case WaitStatus(target) =>
         && Readable(mem, h.base + l.status)
         && h' == (if 1 > mem[h.base + l.status] then h else h.(pc := Spin, base := target))
       case Spin =>
         && Readable(mem, h.base + SPIN)
         && var t1 := mem[h.base + SPIN];
            h' == (if t1 == 0 then h else h.(pc := Gone(t1)))
       case _ => false
  }

  ghost predicate HartStep(l: Layout, mem: seq<int>, h: Hart, mem': seq<int>, h': Hart) {
    || StartStep(l, mem, h, mem', h')
    || CopyStep(mem, h, mem', h')
    || FinishStep(l, mem, h, mem', h')
    || WaitStep(l, mem, h, mem', h')
  }

  // The parts of the code.
  predicate StartPc(pc: Pc) {
    pc.Draw? || pc.SaveLoad? || pc.Relocate? || pc.ReadSize? || pc.ReadLoad?
  }

  predicate CopyPc(pc: Pc) {
    pc.CopyLower? || pc.StoreLower? || pc.CopyUpper? || pc.StoreUpper?
  }

  predicate WaitPc(pc: Pc) {
    pc.WaitRun? || pc.WaitStatus? || pc.Spin?
  }

  lemma StepKind(l: Layout, mem: seq<int>, h: Hart, mem': seq<int>, h': Hart)
    requires HartStep(l, mem, h, mem', h')
    ensures h.pc != Hang && !h.pc.Gone?
    ensures StartPc(h.pc) ==> StartStep(l, mem, h, mem', h')
    ensures CopyPc(h.pc) ==> CopyStep(mem, h, mem', h')
    ensures WaitPc(h.pc) ==> WaitStep(l, mem, h, mem', h')
    ensures !StartPc(h.pc) && !CopyPc(h.pc) && !WaitPc(h.pc) ==> FinishStep(l, mem, h, mem', h')
  {
  }

  ghost predicate Step(l: Layout, s: State, s': State) {
    exists i, h' :: 0 <= i < |s.harts| && HartStep(l, s.mem, s.harts[i], s'.mem, h') && s'.harts == s.harts[i := h']
  }

  // A run of the machine, from power-on.
  ghost predicate Run(l: Layout, img: seq<int>, run: seq<State>) {
    && |run| > 0 && Initial(l, img, run[0])
    && forall i :: 0 <= i < |run| - 1 ==> Step(l, run[i], run[i + 1])
  }

  // The invariant --------------------------------------------------------------------------

  // How many harts have drawn a ticket.
  function Drawn(hs: seq<Hart>): (n: nat)
    ensures n <= |hs|
  {
    if hs == [] then 0 else Drawn(hs[1..]) + (if hs[0].pc.Draw? then 0 else 1)
  }

  // The relocated image is complete and has been announced.
  predicate Marked(pc: Pc) {
    pc.SaveArg? || pc.ZeroBss? || pc.Main? || pc.Release? || pc.ReleaseStore? || pc.Leave? || pc.Gone?
  }

  // The image is complete, but not announced yet.
  predicate Marking(pc: Pc) {
    pc.MarkDone? || pc.MarkRead? || pc.MarkStore?
  }

  // The winner runs at the run address.
  predicate Home(pc: Pc) {
    Marking(pc) || Marked(pc)
  }

  // zstage_main has returned and, in the build without a spin, the others have been released.
  predicate Released(l: Layout, pc: Pc) {
    l.noSpin && (pc.Leave? || pc.Gone?)
  }

  // The code of the image at base is the linked code.
  ghost predicate CodeAt(l: Layout, img: seq<int>, mem: seq<int>, base: int)
    requires |img| == l.size && l.Valid()
  {
    && 0 <= base && base + l.size <= |mem|
    && forall a :: base <= a < base + l.text && a != base + SPIN ==> mem[a] == img[a - base]
  }

  // Words of an image that the boot code writes before or while the image is copied.
  predicate BootWord(l: Layout, k: int) {
    k == l.lottery || k == l.loadStart || k == l.status
  }

  ghost predicate ImageAt(l: Layout, img: seq<int>, mem: seq<int>, base: int)
    requires |img| == l.size
  {
    && 0 <= base && base + l.size <= |mem|
    && forall a :: base <= a < base + l.size && !BootWord(l, a - base) ==> mem[a] == img[a - base]
  }

  ghost predicate Linked(l: Layout, img: seq<int>) {
    && l.Valid() && l.EqualOrDisjoint() && |img| == l.size
    && img[HDR_RUN] == l.run && img[HDR_SIZE] == l.size && img[HDR_NEXT_RUN] == l.nextRun
    && img[SPIN] == 0 && img[l.lottery] == 0 && img[l.status] == 0
  }

  // The memory while the winner is at pc.
  ghost predicate MemOk(l: Layout, img: seq<int>, mem: seq<int>, pc: Pc)
    requires Linked(l, img)
  {
    && l.load + l.size <= |mem| && l.run + l.size <= |mem|
    && CodeAt(l, img, mem, l.load)
    && (l.load != l.run || !Marked(pc) ==> ImageAt(l, img, mem, l.load))
    && (l.load != l.run ==> mem[l.load + l.status] == (if Marked(pc) then 1 else 0))
    && (Home(pc) ==> CodeAt(l, img, mem, l.run))
    && (Home(pc) || l.load == l.run ==> mem[l.run + SPIN] == (if Released(l, pc) then l.nextRun else 0))
  }

  // A part of the image has been copied; the lottery word may have changed since.
  ghost predicate Copied(l: Layout, mem: seq<int>, from: int, to: int)
    requires l.load + l.size <= |mem| && l.run + l.size <= |mem|
    requires l.run <= from && to <= l.run + l.size
  {
    forall a :: from <= a < to && a != l.run + l.lottery ==> mem[a] == mem[a - l.run + l.load]
  }

  ghost predicate CopyingLower(l: Layout, mem: seq<int>, dst: nat, src: nat, end: nat, target: int)
    requires l.load + l.size <= |mem| && l.run + l.size <= |mem|
  {
    && l.run < l.load && l.run <= dst < end == l.run + l.size && dst - src == l.run - l.load && target == l.run
    && Copied(l, mem, l.run, dst)
  }

  ghost predicate CopyingUpper(l: Layout, mem: seq<int>, dst: nat, src: nat, start: nat, target: int)
    requires l.load + l.size <= |mem| && l.run + l.size <= |mem|
  {
    && l.load < l.run && l.run == start < dst <= l.run + l.size && dst - src == l.run - l.load && target == l.run
    && Copied(l, mem, dst, l.run + l.size)
  }

  // The running image as zstage_main finds it, once its bss has been cleared up to word k.
  ghost predicate Prepared(l: Layout, img: seq<int>, mem: seq<int>, arg: int, k: int)
    requires |img| == l.size
  {
    && l.run + l.size <= |mem|
    && forall a :: l.run <= a < l.run + l.size && a != l.run + l.lottery && a != l.run + l.status ==>
         mem[a] == PreparedWord(l, img, arg, k, a - l.run)
  }

  function PreparedWord(l: Layout, img: seq<int>, arg: int, k: int, i: nat): int
    requires i < |img|
  {
    if l.bss <= i < k then 0
    else if i == l.bootArg then arg
    else if i == l.loadStart then l.load
    else img[i]
  }

  // The winner prepares the image.
  ghost predicate Preparing(l: Layout, img: seq<int>, mem: seq<int>, h: Hart)
    requires |img| == l.size
  {
    && (h.pc.SaveArg? ==>
          && ImageAt(l, img, mem, l.run)
          && l.run + l.loadStart < |mem| && mem[l.run + l.loadStart] == l.load)
    && (h.pc.ZeroBss? ==> Prepared(l, img, mem, h.arg, h.pc.at - l.run))
  }

  ghost predicate LeaderOk(l: Layout, mem: seq<int>, h: Hart) {
    && l.load + l.size <= |mem| && l.run + l.size <= |mem| && l.Valid()
    && (Home(h.pc) ==> h.base == l.run)
    && (!Home(h.pc) ==> h.base == l.load)
    && (!Marked(h.pc) && !h.pc.SaveLoad? ==> mem[l.load + l.loadStart] == l.load)
    && (Marking(h.pc) && l.load != l.run ==> Copied(l, mem, l.run, l.run + l.size))
    && match h.pc
       case SaveLoad => true
       case Relocate => true
       case ReadSize(t0) => t0 == l.run
       case ReadLoad(t0, t1) => t0 == l.run && t1 == l.size
       case CopyLower(dst, src, end, target) => CopyingLower(l, mem, dst, src, end, target)
       case StoreLower(dst, src, end, target, word) =>
         CopyingLower(l, mem, dst, src, end, target) && (dst != l.run + l.lottery ==> word == mem[src])
       case CopyUpper(dst, src, start, target) => CopyingUpper(l, mem, dst, src, start, target)
       case StoreUpper(dst, src, start, target, word) =>
         CopyingUpper(l, mem, dst, src, start, target) && (dst - 1 != l.run + l.lottery ==> word == mem[src - 1])
       case MarkDone => true
       case MarkRead(t1) => t1 == l.run
       case MarkStore(t1, t2) => t1 == l.run && t2 == l.load
       case ZeroBss(at) => l.run + l.bss <= at < l.run + l.bssEnd
       case Release => l.noSpin
       case ReleaseStore(next) => l.noSpin && next == l.nextRun
       case Gone(a) => a == l.nextRun
       case _ => Home(h.pc)
  }

  // A hart that did not win, while the winner is at pc.
  predicate FollowerOk(l: Layout, pc: Pc, h: Hart) {
    && !h.won
    && match h.pc
       case Draw => h.base == l.load
       case WaitRun => h.base == l.load
       case WaitStatus(target) => h.base == l.load != l.run && target == l.run
       case Spin => h.base == l.run && (l.load != l.run ==> Marked(pc))
       case Gone(a) => Released(l, pc) && a == l.nextRun
       case _ => false
  }

  ghost predicate Tickets(l: Layout, s: State)
    requires l.Valid() && l.load + l.size <= |s.mem|
  {
    && 0 < |s.harts| <= LOTTERY_WRAP
    && s.mem[l.load + l.lottery] == Drawn(s.harts) % LOTTERY_WRAP
  }

  // Hart w has won.
  ghost predicate Led(l: Layout, img: seq<int>, s: State, w: int) {
    && Linked(l, img)
    && 0 <= w < |s.harts|
    && MemOk(l, img, s.mem, s.harts[w].pc) && Tickets(l, s)
    && s.harts[w].won && LeaderOk(l, s.mem, s.harts[w]) && Preparing(l, img, s.mem, s.harts[w])
    && forall j :: 0 <= j < |s.harts| && j != w ==> FollowerOk(l, s.harts[w].pc, s.harts[j])
  }

  // Nobody has drawn yet.
  ghost predicate Idle(l: Layout, img: seq<int>, s: State) {
    && Linked(l, img)
    && MemOk(l, img, s.mem, SaveLoad) && Tickets(l, s)
    && forall j :: 0 <= j < |s.harts| ==> AtStart(l, s.harts[j])
  }

  ghost predicate Inv(l: Layout, img: seq<int>, s: State) {
    Idle(l, img, s) || exists w :: Led(l, img, s, w)
  }

  // Counting tickets -------------------------------------------------------------------------

  lemma {:induction false} DrawnNone(hs: seq<Hart>)
    requires forall j :: 0 <= j < |hs| ==> hs[j].pc.Draw?
    ensures Drawn(hs) == 0
  {
    if hs != [] {
      DrawnNone(hs[1..]);
    }
  }

  lemma {:induction false} DrawnUpdate(hs: seq<Hart>, i: nat, h: Hart)
    requires i < |hs|
    ensures Drawn(hs[i := h]) == Drawn(hs) + (if hs[i].pc.Draw? then 1 else 0) - (if h.pc.Draw? then 1 else 0)
    ensures hs[i].pc.Draw? ==> Drawn(hs) < |hs|
    ensures !hs[i].pc.Draw? ==> Drawn(hs) > 0
  {
    if i == 0 {
      assert hs[i := h][1..] == hs[1..];
    } else {
      assert hs[i := h][1..] == hs[1..][i - 1 := h];
      DrawnUpdate(hs[1..], i - 1, h);
    }
  }

  // The steps keep the invariant ----------------------------------------------------------------

  lemma InitialInv(l: Layout, img: seq<int>, s: State)
    requires Initial(l, img, s)
    ensures Inv(l, img, s)
  {
    DrawnNone(s.harts);
    forall a | l.load <= a < l.load + l.size ensures s.mem[a] == img[a - l.load] {
      assert s.mem[l.load..l.load + l.size][a - l.load] == s.mem[a];
    }
    assert s.mem[l.load + l.lottery] == img[l.lottery] && s.mem[l.load + l.status] == img[l.status];
    assert Idle(l, img, s);
  }

  // A store to the lottery word changes nothing the others rely on.
  lemma LotteryFrame(l: Layout, img: seq<int>, mem: seq<int>, w: Hart, v: int)
    requires Linked(l, img) && MemOk(l, img, mem, w.pc)
    ensures var mem' := mem[l.load + l.lottery := v];
            && MemOk(l, img, mem', w.pc)
            && (LeaderOk(l, mem, w) ==> LeaderOk(l, mem', w))
            && (Preparing(l, img, mem, w) ==> Preparing(l, img, mem', w))
  {
    hide CodeAt, ImageAt, LeaderOk, Preparing;
    LotteryPrepares(l, img, mem, w, v);
    LotteryMem(l, img, mem, l.load, v);
    LotteryMem(l, img, mem, l.run, v);
    if LeaderOk(l, mem, w) {
      LotteryLeader(l, img, mem, w, v);
    }
  }

  lemma LotteryMem(l: Layout, img: seq<int>, mem: seq<int>, base: int, v: int)
    requires Linked(l, img) && l.load + l.size <= |mem| && l.run + l.size <= |mem| && (base == l.load || base == l.run)
    ensures var mem' := mem[l.load + l.lottery := v];
            && (CodeAt(l, img, mem, base) ==> CodeAt(l, img, mem', base))
            && (ImageAt(l, img, mem, base) ==> ImageAt(l, img, mem', base))
  {
  }

  lemma LotteryLeader(l: Layout, img: seq<int>, mem: seq<int>, w: Hart, v: int)
    requires Linked(l, img) && LeaderOk(l, mem, w)
    ensures LeaderOk(l, mem[l.load + l.lottery := v], w)
  {
  }

  lemma LotteryPrepares(l: Layout, img: seq<int>, mem: seq<int>, w: Hart, v: int)
    requires Linked(l, img) && l.load + l.size <= |mem| && l.run + l.size <= |mem|
    ensures Preparing(l, img, mem, w) ==> Preparing(l, img, mem[l.load + l.lottery := v], w)
  {
  }

  // What drawing a ticket does.
  lemma DrawIs(l: Layout, mem: seq<int>, h: Hart, mem': seq<int>, h': Hart)
    requires HartStep(l, mem, h, mem', h') && h.pc.Draw?
    ensures var a := h.base + l.lottery;
            && 0 <= a < |mem| && mem' == mem[a := (mem[a] + 1) % LOTTERY_WRAP]
            && h' == (if mem[a] == 0 then h.(pc := SaveLoad, won := true) else h.(pc := WaitRun))
  {
  }

  // The first ticket wins.
  lemma FirstDraw(l: Layout, img: seq<int>, s: State, i: nat, mem': seq<int>, h': Hart)
    requires Idle(l, img, s) && i < |s.harts| && HartStep(l, s.mem, s.harts[i], mem', h')
    ensures Led(l, img, State(mem', s.harts[i := h']), i)
  {
    hide Drawn, MemOk, HartStep;
    DrawIs(l, s.mem, s.harts[i], mem', h');
    DrawnNone(s.harts);
    DrawnUpdate(s.harts, i, h');
    MemSizes(l, img, s.mem, SaveLoad);
    LotteryFrame(l, img, s.mem, s.harts[i].(pc := SaveLoad, won := true), 1);
  }

  // A hart that has not won draws a losing ticket,
  lemma FollowerDraws(l: Layout, img: seq<int>, s: State, w: nat, i: nat, mem': seq<int>, h': Hart)
    requires Led(l, img, s, w) && i < |s.harts| && i != w && s.harts[i].pc.Draw?
    requires HartStep(l, s.mem, s.harts[i], mem', h')
    ensures Led(l, img, State(mem', s.harts[i := h']), w)
  {
    hide Drawn, MemOk, LeaderOk, Linked, HartStep;
    var h := s.harts[i];
    DrawIs(l, s.mem, h, mem', h');
    MemSizes(l, img, s.mem, s.harts[w].pc);
    DrawnUpdate(s.harts, i, h');
    DrawnUpdate(s.harts, w, s.harts[w]);
    assert s.harts[w := s.harts[w]] == s.harts;
    LeaderDrawn(l, s.mem, s.harts[w]);
    assert FollowerOk(l, s.harts[w].pc, h);
    LotteryFrame(l, img, s.mem, s.harts[w], (s.mem[l.load + l.lottery] + 1) % LOTTERY_WRAP);
  }

  lemma LeaderDrawn(l: Layout, mem: seq<int>, h: Hart)
    requires LeaderOk(l, mem, h)
    ensures !h.pc.Draw?
  {
  }

  // or waits.
  lemma FollowerWaits(l: Layout, img: seq<int>, mem: seq<int>, w: Hart, h: Hart, mem': seq<int>, h': Hart)
    requires Linked(l, img) && MemOk(l, img, mem, w.pc) && FollowerOk(l, w.pc, h) && !h.pc.Draw?
    requires HartStep(l, mem, h, mem', h')
    ensures mem' == mem && FollowerOk(l, w.pc, h') && !h'.pc.Draw?
  {
    assert mem[l.load + HDR_RUN] == img[HDR_RUN];
  }

  lemma FollowerStep(l: Layout, img: seq<int>, s: State, w: nat, i: nat, mem': seq<int>, h': Hart)
    requires Led(l, img, s, w) && i < |s.harts| && i != w && HartStep(l, s.mem, s.harts[i], mem', h')
    ensures Led(l, img, State(mem', s.harts[i := h']), w)
  {
    hide Drawn, MemOk, LeaderOk, Linked, FollowerOk, HartStep;
    if s.harts[i].pc.Draw? {
      FollowerDraws(l, img, s, w, i, mem', h');
    } else {
      MemSizes(l, img, s.mem, s.harts[w].pc);
      FollowerWaits(l, img, s.mem, s.harts[w], s.harts[i], mem', h');
      DrawnUpdate(s.harts, i, h');
    }
  }

  // What a step of the winner from mem and h to mem' and h' has to keep.
  ghost predicate LeaderKeeps(l: Layout, img: seq<int>, mem: seq<int>, h: Hart, mem': seq<int>, h': Hart)
    requires Linked(l, img) && l.load + l.size <= |mem|
  {
    && MemOk(l, img, mem', h'.pc) && LeaderOk(l, mem', h') && |mem'| == |mem|
    && mem'[l.load + l.lottery] == mem[l.load + l.lottery]
    && h'.won == h.won && !h'.pc.Draw?
    && (Marked(h.pc) ==> Marked(h'.pc))
    && (Released(l, h.pc) ==> Released(l, h'.pc))
  }

  ghost predicate Leads(l: Layout, img: seq<int>, mem: seq<int>, h: Hart) {
    Linked(l, img) && MemOk(l, img, mem, h.pc) && LeaderOk(l, mem, h) && Preparing(l, img, mem, h)
  }

  // What a step of the winner does to the image it prepares for zstage_main.
  ghost predicate Prepares(l: Layout, img: seq<int>, h: Hart, mem': seq<int>, h': Hart)
    requires |img| == l.size
  {
    && Preparing(l, img, mem', h') && h'.arg == h.arg
    && (h'.pc.Main? && !h.pc.Main? ==> Prepared(l, img, mem', h'.arg, l.bssEnd))
  }

  lemma LeaderSaves(l: Layout, img: seq<int>, mem: seq<int>, h: Hart, mem': seq<int>, h': Hart)
    requires Leads(l, img, mem, h) && h.pc.SaveLoad? && StartStep(l, mem, h, mem', h')
    ensures LeaderKeeps(l, img, mem, h, mem', h')
  {
    hide MemOk, Copied;
    MemSizes(l, img, mem, h.pc);
    LoadStartFrame(l, img, mem, l.load);
  }

  lemma LoadStartFrame(l: Layout, img: seq<int>, mem: seq<int>, v: int)
    requires Linked(l, img) && MemOk(l, img, mem, SaveLoad)
    ensures MemOk(l, img, mem[l.load + l.loadStart := v], Relocate)
  {
  }

  lemma LeaderReads(l: Layout, img: seq<int>, mem: seq<int>, h: Hart, mem': seq<int>, h': Hart)
    requires Leads(l, img, mem, h) && (h.pc.Relocate? || h.pc.ReadSize?) && StartStep(l, mem, h, mem', h')
    ensures LeaderKeeps(l, img, mem, h, mem', h')
  {
    HeaderWords(l, img, mem, h.pc);
  }

  // The guards never stop a relocation between equal or disjoint ranges.
  lemma LeaderRelocates(l: Layout, img: seq<int>, mem: seq<int>, h: Hart, mem': seq<int>, h': Hart)
    requires Leads(l, img, mem, h) && h.pc.ReadLoad? && StartStep(l, mem, h, mem', h')
    ensures LeaderKeeps(l, img, mem, h, mem', h')
  {
    hide GuardsHang, Clash;
    HeaderWords(l, img, mem, h.pc);
    assert l.(load := l.load, run := l.run, size := l.size) == l;
    GuardsExact(l);
    NoClash(l);
  }

  lemma HeaderWords(l: Layout, img: seq<int>, mem: seq<int>, pc: Pc)
    requires Linked(l, img) && MemOk(l, img, mem, pc)
    ensures mem[l.load + HDR_RUN] == l.run && mem[l.load + HDR_SIZE] == l.size
    ensures Home(pc) ==> mem[l.run + HDR_RUN] == l.run && mem[l.run + HDR_NEXT_RUN] == l.nextRun
  {
  }

  // Reading the next word to copy.
  lemma LeaderLoads(l: Layout, img: seq<int>, mem: seq<int>, h: Hart, mem': seq<int>, h': Hart)
    requires Leads(l, img, mem, h) && (h.pc.CopyLower? || h.pc.CopyUpper?) && CopyStep(mem, h, mem', h')
    ensures LeaderKeeps(l, img, mem, h, mem', h')
  {
    hide CodeAt, ImageAt, Copied;
  }

  lemma LeaderCopiesLower(l: Layout, img: seq<int>, mem: seq<int>, h: Hart, mem': seq<int>, h': Hart)
    requires Leads(l, img, mem, h) && h.pc.StoreLower? && CopyStep(mem, h, mem', h')
    ensures LeaderKeeps(l, img, mem, h, mem', h')
  {
    hide MemOk, CodeAt, ImageAt, Copied;
    MemSizes(l, img, mem, h.pc);
    CopiedOne(l, mem, l.run, h.pc.dst, h.pc.dst, h.pc.word);
    CopyFrame(l, img, mem, mem', h.pc, h'.pc);
  }

  lemma LeaderCopiesUpper(l: Layout, img: seq<int>, mem: seq<int>, h: Hart, mem': seq<int>, h': Hart)
    requires Leads(l, img, mem, h) && h.pc.StoreUpper? && CopyStep(mem, h, mem', h')
    ensures LeaderKeeps(l, img, mem, h, mem', h')
  {
    hide MemOk, CodeAt, ImageAt, Copied;
    MemSizes(l, img, mem, h.pc);
    CopiedOne(l, mem, h.pc.dst, l.run + l.size, h.pc.dst - 1, h.pc.word);
    CopyFrame(l, img, mem, mem', h.pc, h'.pc);
  }

  lemma MemSizes(l: Layout, img: seq<int>, mem: seq<int>, pc: Pc)
    requires Linked(l, img) && MemOk(l, img, mem, pc)
    ensures l.load + l.size <= |mem| && l.run + l.size <= |mem|
  {
  }

  // A store outside the image at the load address, while copying or with the last word copied.
  lemma CopyFrame(l: Layout, img: seq<int>, mem: seq<int>, mem': seq<int>, pc: Pc, pc': Pc)
    requires Linked(l, img) && l.load != l.run && MemOk(l, img, mem, pc) && |mem'| == |mem|
    requires forall k :: l.load <= k < l.load + l.size ==> mem'[k] == mem[k]
    requires !Home(pc) && (!Home(pc') || (pc'.MarkDone? && Copied(l, mem', l.run, l.run + l.size)))
    ensures MemOk(l, img, mem', pc')
  {
    assert ImageAt(l, img, mem', l.load);
    assert CodeAt(l, img, mem', l.load);
    if Home(pc') {
      CopyComplete(l, img, mem');
    }
  }

  // One more word is copied.
  lemma CopiedOne(l: Layout, mem: seq<int>, from: int, to: int, a: int, word: int)
    requires l.Valid() && l.EqualOrDisjoint() && l.load != l.run
    requires l.load + l.size <= |mem| && l.run + l.size <= |mem|
    requires l.run <= from && to <= l.run + l.size && Copied(l, mem, from, to)
    requires l.run <= a < l.run + l.size && (a == to || a == from - 1)
    requires a != l.run + l.lottery ==> word == mem[a - l.run + l.load]
    ensures var mem' := mem[a := word];
            && (a == to ==> Copied(l, mem', from, to + 1))
            && (a == from - 1 ==> Copied(l, mem', from - 1, to))
            && (forall k :: l.load <= k < l.load + l.size ==> mem'[k] == mem[k])
  {
  }

  // A complete copy of the image is the linked image, but for the words that were written.
  lemma CopyComplete(l: Layout, img: seq<int>, mem: seq<int>)
    requires Linked(l, img) && l.load != l.run
    requires l.load + l.size <= |mem| && l.run + l.size <= |mem|
    requires ImageAt(l, img, mem, l.load) && Copied(l, mem, l.run, l.run + l.size)
    ensures ImageAt(l, img, mem, l.run) && CodeAt(l, img, mem, l.run)
    ensures mem[l.run + SPIN] == 0 && mem[l.run + l.loadStart] == mem[l.load + l.loadStart]
  {
    forall a | l.run <= a < l.run + l.size && !BootWord(l, a - l.run)
      ensures mem[a] == img[a - l.run]
    {
      assert mem[a - l.run + l.load] == img[a - l.run];
    }
  }

  lemma LeaderMarks(l: Layout, img: seq<int>, mem: seq<int>, h: Hart, mem': seq<int>, h': Hart)
    requires Leads(l, img, mem, h) && Marking(h.pc) && FinishStep(l, mem, h, mem', h')
    ensures LeaderKeeps(l, img, mem, h, mem', h')
  {
    hide Copied, Linked, CodeAt, ImageAt;
    LoadWord(l, img, mem, h);
    HeaderWords(l, img, mem, h.pc);
    if h.pc.MarkStore? {
      LeaderAnnounces(l, img, mem, h, mem', h');
    }
  }

  lemma LeaderAnnounces(l: Layout, img: seq<int>, mem: seq<int>, h: Hart, mem': seq<int>, h': Hart)
    requires Leads(l, img, mem, h) && h.pc.MarkStore? && FinishStep(l, mem, h, mem', h')
    ensures LeaderKeeps(l, img, mem, h, mem', h')
  {
    hide Copied, Linked, MemOk;
    MemSizes(l, img, mem, h.pc);
    LoadWord(l, img, mem, h);
    assert l.run + l.status - l.run + l.load == l.load + l.status;
    StatusFrame(l, img, mem, h.pc);
  }

  lemma LoadWord(l: Layout, img: seq<int>, mem: seq<int>, h: Hart)
    requires Leads(l, img, mem, h) && Marking(h.pc)
    ensures mem[l.run + l.loadStart] == l.load && l.Valid()
  {
  }

  lemma StatusFrame(l: Layout, img: seq<int>, mem: seq<int>, pc: Pc)
    requires Linked(l, img) && MemOk(l, img, mem, pc) && Marking(pc)
    ensures MemOk(l, img, mem[l.load + l.status := 1], SaveArg)
  {
  }

  lemma LeaderSavesArg(l: Layout, img: seq<int>, mem: seq<int>, h: Hart, mem': seq<int>, h': Hart)
    requires Leads(l, img, mem, h) && h.pc.SaveArg? && FinishStep(l, mem, h, mem', h')
    ensures LeaderKeeps(l, img, mem, h, mem', h')
  {
    hide CodeAt, ImageAt, Copied, Protected;
    var a := h.base + l.bootArg;
    OwnWord(l, img, mem, h.pc, l.bootArg);
    StoreFrame(l, img, mem, a, mem'[a], h.pc, h'.pc);
  }

  // A store to a word of the running image behind its code, or to one that zstage_main may use.
  lemma StoreFrame(l: Layout, img: seq<int>, mem: seq<int>, a: int, v: int, pc: Pc, pc': Pc)
    requires Linked(l, img) && MemOk(l, img, mem, pc) && 0 <= a < |mem| && !Protected(l, a)
    requires Marked(pc) && Marked(pc') && !Released(l, pc) && !Released(l, pc')
    ensures MemOk(l, img, mem[a := v], pc') && mem[a := v][l.load + l.lottery] == mem[l.load + l.lottery]
  {
    hide BootWord;
    assert l.run <= l.run + SPIN < l.run + l.text;
  }

  // The working words of the running image are not protected.
  lemma OwnWord(l: Layout, img: seq<int>, mem: seq<int>, pc: Pc, k: int)
    requires Linked(l, img) && MemOk(l, img, mem, pc)
    requires (l.bss <= k < l.bssEnd || k == l.bootArg)
    ensures 0 <= l.run + k < |mem| && !Protected(l, l.run + k)
  {
    hide CodeAt, ImageAt;
  }

  lemma LeaderZeroes(l: Layout, img: seq<int>, mem: seq<int>, h: Hart, mem': seq<int>, h': Hart)
    requires Leads(l, img, mem, h) && h.pc.ZeroBss? && FinishStep(l, mem, h, mem', h')
    ensures LeaderKeeps(l, img, mem, h, mem', h')
  {
    hide MemOk, Linked, Copied, Protected;
    MemSizes(l, img, mem, h.pc);
    OwnWord(l, img, mem, h.pc, h.pc.at - l.run);
    StoreFrame(l, img, mem, h.pc.at, 0, h.pc, h'.pc);
  }

  lemma LeaderInMain(l: Layout, img: seq<int>, mem: seq<int>, h: Hart, mem': seq<int>, h': Hart)
    requires Leads(l, img, mem, h) && h.pc.Main? && FinishStep(l, mem, h, mem', h')
    ensures LeaderKeeps(l, img, mem, h, mem', h')
  {
    hide CodeAt, ImageAt, Linked, Copied, Protected;
    if mem' != mem {
      var a :| !Protected(l, a) && StoresAny(mem, mem', a);
      StoreFrame(l, img, mem, a, mem'[a], h.pc, h'.pc);
    }
  }

  lemma LeaderLeaves(l: Layout, img: seq<int>, mem: seq<int>, h: Hart, mem': seq<int>, h': Hart)
    requires Leads(l, img, mem, h) && (h.pc.Release? || h.pc.ReleaseStore? || h.pc.Leave?)
    requires FinishStep(l, mem, h, mem', h')
    ensures LeaderKeeps(l, img, mem, h, mem', h')
  {
    assert mem[l.run + HDR_NEXT_RUN] == img[HDR_NEXT_RUN];
  }

  // A step that neither prepares the image nor ends its preparation.
  lemma NotPreparing(l: Layout, img: seq<int>, mem: seq<int>, h: Hart, mem': seq<int>, h': Hart)
    requires |img| == l.size && HartStep(l, mem, h, mem', h')
    requires !h.pc.MarkStore? && !h.pc.SaveArg? && !h.pc.ZeroBss?
    ensures Prepares(l, img, h, mem', h')
  {
    hide GuardsHang;
  }

  lemma PrepareMark(l: Layout, img: seq<int>, mem: seq<int>, h: Hart, mem': seq<int>, h': Hart)
    requires Leads(l, img, mem, h) && h.pc.MarkStore? && FinishStep(l, mem, h, mem', h')
    ensures Prepares(l, img, h, mem', h')
  {
    hide CodeAt, Copied;
    LoadWord(l, img, mem, h);
    if l.load != l.run {
      CopyComplete(l, img, mem);
    }
  }

  lemma PrepareArg(l: Layout, img: seq<int>, mem: seq<int>, h: Hart, mem': seq<int>, h': Hart)
    requires Leads(l, img, mem, h) && h.pc.SaveArg? && FinishStep(l, mem, h, mem', h')
    ensures Prepares(l, img, h, mem', h')
  {
    hide CodeAt, Copied;
  }

  lemma PrepareBss(l: Layout, img: seq<int>, mem: seq<int>, h: Hart, mem': seq<int>, h': Hart)
    requires Leads(l, img, mem, h) && h.pc.ZeroBss? && FinishStep(l, mem, h, mem', h')
    ensures Prepares(l, img, h, mem', h')
  {
    hide MemOk, Copied;
  }

  lemma LeaderPrepares(l: Layout, img: seq<int>, mem: seq<int>, h: Hart, mem': seq<int>, h': Hart)
    requires Leads(l, img, mem, h) && HartStep(l, mem, h, mem', h')
    ensures Prepares(l, img, h, mem', h')
  {
    hide Preparing, Prepares, MemOk, HartStep, StartStep, CopyStep, FinishStep, WaitStep, LeaderOk;
    StepKind(l, mem, h, mem', h');
    if h.pc.MarkStore? {
      PrepareMark(l, img, mem, h, mem', h');
    } else if h.pc.SaveArg? {
      PrepareArg(l, img, mem, h, mem', h');
    } else if h.pc.ZeroBss? {
      PrepareBss(l, img, mem, h, mem', h');
    } else {
      NotPreparing(l, img, mem, h, mem', h');
    }
  }

  lemma LeaderMoves(l: Layout, img: seq<int>, mem: seq<int>, h: Hart, mem': seq<int>, h': Hart)
    requires Leads(l, img, mem, h) && HartStep(l, mem, h, mem', h')
    ensures LeaderKeeps(l, img, mem, h, mem', h') && Prepares(l, img, h, mem', h')
  {
    hide Preparing, Prepares, MemOk, LeaderKeeps, Linked, Copied, HartStep, StartStep, CopyStep, FinishStep, WaitStep,
      LeaderOk;
    StepKind(l, mem, h, mem', h');
    NotWaiting(l, img, mem, h);
    LeaderPrepares(l, img, mem, h, mem', h');
    match h.pc
    case SaveLoad => LeaderSaves(l, img, mem, h, mem', h');
    case Relocate => LeaderReads(l, img, mem, h, mem', h');
    case ReadSize(_) => LeaderReads(l, img, mem, h, mem', h');
    case ReadLoad(_, _) => LeaderRelocates(l, img, mem, h, mem', h');
    case CopyLower(_, _, _, _) => LeaderLoads(l, img, mem, h, mem', h');
    case StoreLower(_, _, _, _, _) => LeaderCopiesLower(l, img, mem, h, mem', h');
    case CopyUpper(_, _, _, _) => LeaderLoads(l, img, mem, h, mem', h');
    case StoreUpper(_, _, _, _, _) => LeaderCopiesUpper(l, img, mem, h, mem', h');
    case MarkDone => LeaderMarks(l, img, mem, h, mem', h');
    case MarkRead(_) => LeaderMarks(l, img, mem, h, mem', h');
    case MarkStore(_, _) => LeaderMarks(l, img, mem, h, mem', h');
    case SaveArg => LeaderSavesArg(l, img, mem, h, mem', h');
    case ZeroBss(_) => LeaderZeroes(l, img, mem, h, mem', h');
    case Main => LeaderInMain(l, img, mem, h, mem', h');
    case Release => LeaderLeaves(l, img, mem, h, mem', h');
    case ReleaseStore(_) => LeaderLeaves(l, img, mem, h, mem', h');
    case Leave => LeaderLeaves(l, img, mem, h, mem', h');
    case _ =>
  }

  lemma LeaderStep(l: Layout, img: seq<int>, s: State, w: nat, mem': seq<int>, h': Hart)
    requires Led(l, img, s, w) && w < |s.harts| && HartStep(l, s.mem, s.harts[w], mem', h')
    ensures Led(l, img, State(mem', s.harts[w := h']), w)
  {
    hide Drawn, MemOk, LeaderOk, HartStep, Linked;
    MemSizes(l, img, s.mem, s.harts[w].pc);
    LeaderMoves(l, img, s.mem, s.harts[w], mem', h');
    LeaderDrawn(l, s.mem, s.harts[w]);
    DrawnUpdate(s.harts, w, h');
    forall j | 0 <= j < |s.harts| && j != w ensures FollowerOk(l, h'.pc, s.harts[j]) {
      assert FollowerOk(l, s.harts[w].pc, s.harts[j]);
    }
  }

  // Every step of every hart keeps the invariant.
  lemma StepInv(l: Layout, img: seq<int>, s: State, s': State)
    requires Inv(l, img, s) && Step(l, s, s')
    ensures Inv(l, img, s')
  {
    hide Led, Idle, HartStep;
    var i, h' :| 0 <= i < |s.harts| && HartStep(l, s.mem, s.harts[i], s'.mem, h') && s'.harts == s.harts[i := h'];
    assert s' == State(s'.mem, s.harts[i := h']);
    if Idle(l, img, s) {
      FirstDraw(l, img, s, i, s'.mem, h');
    } else {
      var w :| Led(l, img, s, w);
      LeaderIndex(l, img, s, w);
      if i == w {
        LeaderStep(l, img, s, w, s'.mem, h');
      } else {
        FollowerStep(l, img, s, w, i, s'.mem, h');
      }
    }
  }

  lemma LeaderIndex(l: Layout, img: seq<int>, s: State, w: int)
    requires Led(l, img, s, w)
    ensures 0 <= w < |s.harts|
  {
  }

  // What every run guarantees ----------------------------------------------------------------

  // A hart other than the winner that is at h.
  ghost predicate SecondarySafe(l: Layout, img: seq<int>, s: State, winner: Hart, h: Hart)
    requires l.Valid() && |img| == l.size
  {
    && !h.won
    // It only ever executes the linked code, at the load or the run address.
    && (!h.pc.Gone? ==> (h.base == l.load || h.base == l.run) && CodeAt(l, img, s.mem, h.base))
    // At the run address it is not before the image there is complete and announced.
    && (!h.pc.Gone? && h.base != l.load ==> Marked(winner.pc))
    // It leaves the spin loop after zstage_main has returned, for the next stage; without
    // the release in ZSTAGE_NO_SPIN builds it never does.
    && (h.pc.Gone? ==> l.noSpin && (winner.pc.Leave? || winner.pc.Gone?) && h.pc.address == l.nextRun)
    && h.pc != Hang
  }

  ghost predicate WinnerSafe(l: Layout, img: seq<int>, s: State, h: Hart)
    requires l.Valid() && |img| == l.size
  {
    && h.won && h.pc != Draw && h.pc != Hang
    && (!h.pc.Gone? ==> h.base == (if Home(h.pc) then l.run else l.load) && CodeAt(l, img, s.mem, h.base))
    // Before it announces the image, the whole image is there.
    && (Marking(h.pc) && l.load != l.run ==> ImageAt(l, img, s.mem, l.run) && s.mem[l.run + l.loadStart] == l.load)
    && (h.pc.Gone? ==> h.pc.address == l.nextRun)
  }

  ghost predicate Safe(l: Layout, img: seq<int>, s: State)
    requires l.Valid() && |img| == l.size
  {
    || (forall j :: 0 <= j < |s.harts| ==> AtStart(l, s.harts[j]))
    || (exists w :: && 0 <= w < |s.harts| && WinnerSafe(l, img, s, s.harts[w])
                    && forall j :: 0 <= j < |s.harts| && j != w ==> SecondarySafe(l, img, s, s.harts[w], s.harts[j]))
  }

  lemma InvSafe(l: Layout, img: seq<int>, s: State)
    requires Inv(l, img, s)
    ensures l.Valid() && |img| == l.size && Safe(l, img, s)
  {
    if !Idle(l, img, s) {
      var w :| Led(l, img, s, w);
      var h := s.harts[w];
      if Marking(h.pc) && l.load != l.run {
        CopyComplete(l, img, s.mem);
      }
      assert WinnerSafe(l, img, s, h);
      forall j | 0 <= j < |s.harts| && j != w ensures SecondarySafe(l, img, s, h, s.harts[j]) {
        assert FollowerOk(l, h.pc, s.harts[j]);
      }
    }
  }

  // The hart that has won.
  predicate Winner(s: State, w: nat) {
    w < |s.harts| && s.harts[w].won
  }

  lemma OneWinner(l: Layout, img: seq<int>, s: State, v: nat, w: nat)
    requires Inv(l, img, s) && Winner(s, v) && Winner(s, w)
    ensures v == w
  {
    hide MemOk, LeaderOk, Tickets, Linked;
    if x :| Led(l, img, s, x) {
      assert forall j :: 0 <= j < |s.harts| && j != x ==> FollowerOk(l, s.harts[x].pc, s.harts[j]);
    }
  }

  // A hart that has won stays the winner.
  lemma StillWon(l: Layout, s: State, s': State, w: nat)
    requires Step(l, s, s') && Winner(s, w)
    ensures Winner(s', w)
  {
  }

  // In a run the winner is the same hart from the first ticket on: no other hart wins later.
  lemma {:induction false} SameWinner(l: Layout, img: seq<int>, run: seq<State>, m: nat, n: nat, v: nat, w: nat)
    requires Run(l, img, run) && m <= n < |run| && Winner(run[m], v) && Winner(run[n], w)
    ensures v == w
    decreases n - m
  {
    hide Inv, Step, Initial, Winner;
    if m == n {
      RunInv(l, img, run, n);
      OneWinner(l, img, run[n], v, w);
    } else {
      assert Step(l, run[m], run[m + 1]);
      StillWon(l, run[m], run[m + 1], v);
      SameWinner(l, img, run, m + 1, n, v, w);
    }
  }

  // In every run at every moment: until the first draw all harts are at the start, and from
  // then on there is exactly one winner, and all harts are safe.
  lemma {:induction false} BootSafety(l: Layout, img: seq<int>, run: seq<State>, n: nat)
    requires Run(l, img, run) && n < |run|
    ensures l.Valid() && |img| == l.size && Safe(l, img, run[n])
  {
    hide Inv, Initial, Step, Safe;
    RunInv(l, img, run, n);
    InvSafe(l, img, run[n]);
  }

  lemma {:induction false} RunInv(l: Layout, img: seq<int>, run: seq<State>, n: nat)
    requires Run(l, img, run) && n < |run|
    ensures Inv(l, img, run[n])
  {
    hide Inv, Initial, Step;
    if n == 0 {
      InitialInv(l, img, run[0]);
    } else {
      RunInv(l, img, run, n - 1);
      StepInv(l, img, run[n - 1], run[n - 1 + 1]);
    }
  }

  // At the first moment of a run at which the winner is in zstage_main the bss is zero, the word for the boot
  // argument holds its register a1 of power-on, the one for the load address that address, and every other
  // word of the running image, but for the lottery and the status word, is that of the linked image.
  lemma MainEntered(l: Layout, img: seq<int>, run: seq<State>, n: nat, w: nat)
    requires Run(l, img, run) && n + 1 < |run| && Winner(run[n + 1], w) && run[n + 1].harts[w].pc.Main?
    requires w < |run[n].harts| ==> !run[n].harts[w].pc.Main?
    ensures |img| == l.size && |run[0].harts| == |run[n + 1].harts|
    ensures Prepared(l, img, run[n + 1].mem, run[0].harts[w].arg, l.bssEnd)
    ensures BssZero(l, run[n + 1].mem)
  {
    hide Initial, Inv, HartStep, LeaderOk, MemOk, Tickets;
    SameArg(l, img, run, n, w);
    RunInv(l, img, run, n);
    var s, s' := run[n], run[n + 1];
    assert Step(l, s, s');
    var i, h' :| 0 <= i < |s.harts| && HartStep(l, s.mem, s.harts[i], s'.mem, h') && s'.harts == s.harts[i := h'];
    assert i == w;
    ComesToMain(l, s.mem, s.harts[w], s'.mem, h');
    WinnerLeads(l, img, s, w);
    LeaderMoves(l, img, s.mem, s.harts[w], s'.mem, h');
    BssIsZero(l, img, s'.mem, h'.arg);
  }

  lemma ComesToMain(l: Layout, mem: seq<int>, h: Hart, mem': seq<int>, h': Hart)
    requires HartStep(l, mem, h, mem', h') && h'.pc.Main? && h'.won
    ensures h.won && |mem'| == |mem|
  {
  }

  predicate BssZero(l: Layout, mem: seq<int>) {
    l.run + l.bssEnd <= |mem| && forall a :: l.run + l.bss <= a < l.run + l.bssEnd ==> mem[a] == 0
  }

  lemma BssIsZero(l: Layout, img: seq<int>, mem: seq<int>, arg: int)
    requires l.Valid() && |img| == l.size && Prepared(l, img, mem, arg, l.bssEnd)
    ensures BssZero(l, mem)
  {
  }

  lemma {:induction false} SameArg(l: Layout, img: seq<int>, run: seq<State>, n: nat, i: nat)
    requires Run(l, img, run) && n < |run| && i < |run[n].harts|
    ensures |run[0].harts| == |run[n].harts| && run[n].harts[i].arg == run[0].harts[i].arg
  {
    hide Initial, Step;
    if n > 0 {
      ArgKept(l, run[n - 1], run[n - 1 + 1], i);
      SameArg(l, img, run, n - 1, i);
    }
  }

  lemma ArgKept(l: Layout, s: State, s': State, i: nat)
    requires Step(l, s, s') && i < |s'.harts|
    ensures |s.harts| == |s'.harts| && s'.harts[i].arg == s.harts[i].arg
  {
  }

  // No step is ever blocked: a hart that has not left for the next stage can always go on.
  lemma NeverStuck(l: Layout, img: seq<int>, run: seq<State>, n: nat, i: nat)
    requires Run(l, img, run) && n < |run| && i < |run[n].harts| && !run[n].harts[i].pc.Gone?
    ensures exists mem', h' :: HartStep(l, run[n].mem, run[n].harts[i], mem', h')
  {
    hide Initial, Step, HartStep, MemOk, LeaderOk, FollowerOk;
    RunInv(l, img, run, n);
    var s := run[n];
    if Idle(l, img, s) {
      CanStart(l, img, s.mem, SaveLoad, s.harts[i]);
    } else {
      var w :| Led(l, img, s, w);
      if i == w {
        CanLead(l, img, s.mem, s.harts[i]);
      } else if s.harts[i].pc.Draw? {
        assert s.harts[i].base == l.load by { DrawsAtLoad(l, s.harts[w].pc, s.harts[i]); }
        CanStart(l, img, s.mem, s.harts[w].pc, s.harts[i]);
      } else {
        CanWait(l, img, s.mem, s.harts[w].pc, s.harts[i]);
      }
    }
  }

  lemma DrawsAtLoad(l: Layout, pc: Pc, h: Hart)
    requires FollowerOk(l, pc, h) && h.pc.Draw?
    ensures h.base == l.load
  {
  }

  lemma CanStart(l: Layout, img: seq<int>, mem: seq<int>, pc: Pc, h: Hart)
    requires Linked(l, img) && MemOk(l, img, mem, pc) && h.pc.Draw? && h.base == l.load
    ensures exists mem', h' :: HartStep(l, mem, h, mem', h')
  {
    var a := h.base + l.lottery;
    var h' := if mem[a] == 0 then h.(pc := SaveLoad, won := true) else h.(pc := WaitRun);
    assert HartStep(l, mem, h, mem[a := (mem[a] + 1) % LOTTERY_WRAP], h');
  }

  lemma CanWait(l: Layout, img: seq<int>, mem: seq<int>, pc: Pc, h: Hart)
    requires Linked(l, img) && MemOk(l, img, mem, pc) && FollowerOk(l, pc, h) && !h.pc.Draw? && !h.pc.Gone?
    ensures exists mem', h' :: HartStep(l, mem, h, mem', h')
  {
    hide CodeAt, ImageAt;
    match h.pc
    case WaitRun =>
      var t1 := mem[h.base + HDR_RUN];
      assert HartStep(l, mem, h, mem, h.(pc := if h.base == t1 then Spin else WaitStatus(t1)));
    case WaitStatus(target) =>
      assert HartStep(l, mem, h, mem, if 1 > mem[h.base + l.status] then h else h.(pc := Spin, base := target));
    case Spin =>
      var t1 := mem[h.base + SPIN];
      assert HartStep(l, mem, h, mem, if t1 == 0 then h else h.(pc := Gone(t1)));
  }

  lemma CanLead(l: Layout, img: seq<int>, mem: seq<int>, h: Hart)
    requires Leads(l, img, mem, h) && !h.pc.Gone?
    ensures exists mem', h' :: HartStep(l, mem, h, mem', h')
  {
    if h.pc.SaveLoad? || h.pc.Relocate? || h.pc.ReadSize? || h.pc.ReadLoad? {
      CanBegin(l, img, mem, h);
    } else if h.pc.CopyLower? || h.pc.CopyUpper? || h.pc.StoreLower? || h.pc.StoreUpper? {
      CanCopy(l, img, mem, h);
    } else if Marking(h.pc) {
      CanMark(l, img, mem, h);
    } else {
      CanFinish(l, img, mem, h);
    }
  }

  lemma CanBegin(l: Layout, img: seq<int>, mem: seq<int>, h: Hart)
    requires Leads(l, img, mem, h) && (h.pc.SaveLoad? || h.pc.Relocate? || h.pc.ReadSize? || h.pc.ReadLoad?)
    ensures exists mem', h' :: HartStep(l, mem, h, mem', h')
  {
    hide GuardsHang;
    HeaderWords(l, img, mem, h.pc);
    match h.pc
    case SaveLoad => assert HartStep(l, mem, h, mem[h.base + l.loadStart := h.base], h.(pc := Relocate));
    case Relocate => assert HartStep(l, mem, h, mem, h.(pc := ReadSize(l.run)));
    case ReadSize(t0) => assert HartStep(l, mem, h, mem, h.(pc := ReadLoad(t0, l.size)));
    case ReadLoad(t0, t1) => assert HartStep(l, mem, h, mem, h.(pc := AfterGuards(l, h.base, t0, t1, l.load)));
  }

  lemma CanCopy(l: Layout, img: seq<int>, mem: seq<int>, h: Hart)
    requires Leads(l, img, mem, h) && (h.pc.CopyLower? || h.pc.CopyUpper? || h.pc.StoreLower? || h.pc.StoreUpper?)
    ensures exists mem', h' :: HartStep(l, mem, h, mem', h')
  {
    hide MemOk, Copied, Linked;
    match h.pc
    case CopyLower(dst, src, end, target) =>
      assert HartStep(l, mem, h, mem, h.(pc := StoreLower(dst, src, end, target, mem[src])));
    case StoreLower(dst, src, end, target, word) =>
      assert HartStep(l, mem, h, mem[dst := word],
                      if dst + 1 < end then h.(pc := CopyLower(dst + 1, src + 1, end, target))
                      else h.(pc := MarkDone, base := target));
    case CopyUpper(dst, src, start, target) =>
      assert HartStep(l, mem, h, mem, h.(pc := StoreUpper(dst, src, start, target, mem[src - 1])));
    case StoreUpper(dst, src, start, target, word) =>
      assert HartStep(l, mem, h, mem[dst - 1 := word],
                      if start < dst - 1 then h.(pc := CopyUpper(dst - 1, src - 1, start, target))
                      else h.(pc := MarkDone, base := target));
  }

  lemma CanMark(l: Layout, img: seq<int>, mem: seq<int>, h: Hart)
    requires Leads(l, img, mem, h) && Marking(h.pc)
    ensures exists mem', h' :: HartStep(l, mem, h, mem', h')
  {
    hide CodeAt, ImageAt, Copied;
    HeaderWords(l, img, mem, h.pc);
    match h.pc
    case MarkDone =>
      assert HartStep(l, mem, h, mem, h.(pc := MarkRead(l.run)));
    case MarkRead(t1) =>
      assert HartStep(l, mem, h, mem, h.(pc := MarkStore(t1, mem[h.base + l.loadStart])));
    case MarkStore(t1, t2) =>
      assert HartStep(l, mem, h, mem[h.base + l.status - t1 + t2 := 1], h.(pc := SaveArg));
  }

  lemma CanFinish(l: Layout, img: seq<int>, mem: seq<int>, h: Hart)
    requires Leads(l, img, mem, h) && Marked(h.pc) && !h.pc.Gone?
    ensures exists mem', h' :: HartStep(l, mem, h, mem', h')
  {
    hide CodeAt, ImageAt, Copied, MemOk;
    MemSizes(l, img, mem, h.pc);
    match h.pc
    case SaveArg =>
      var a := h.base + l.bootArg;
      assert HartStep(l, mem, h, mem[a := h.arg], h.(pc := ZeroBss(h.base + l.bss)));
    case ZeroBss(at) =>
      assert HartStep(l, mem, h, mem[at := 0], h.(pc := if at + 1 < h.base + l.bssEnd then ZeroBss(at + 1) else Main));
    case Main =>
      assert HartStep(l, mem, h, mem, h.(pc := if l.noSpin then Release else Leave));
    case Release =>
      assert HartStep(l, mem, h, mem, h.(pc := ReleaseStore(mem[h.base + HDR_NEXT_RUN])));
    case ReleaseStore(next) =>
      assert HartStep(l, mem, h, mem[h.base + SPIN := next], h.(pc := Leave));
    case Leave =>
      assert HartStep(l, mem, h, mem, h.(pc := Gone(mem[h.base + HDR_NEXT_RUN])));
  }

  // Progress -------------------------------------------------------------------------------------

  // A run in which who[k] is the hart that takes step k.
  ghost predicate Scheduled(l: Layout, img: seq<int>, run: seq<State>, who: seq<nat>) {
    && Run(l, img, run) && |who| == |run| - 1
    && forall k :: 0 <= k < |who| ==> StepOf(l, run[k], run[k + 1], who[k])
  }

  ghost predicate StepOf(l: Layout, s: State, s': State, i: nat) {
    i < |s.harts| && exists h' :: HartStep(l, s.mem, s.harts[i], s'.mem, h') && s'.harts == s.harts[i := h']
  }

  // How many of the steps from m to n hart i takes.
  function Turns(who: seq<nat>, m: nat, n: nat, i: nat): nat
    requires m <= n <= |who|
    decreases n - m
  {
    if m == n then 0 else (if who[m] == i then 1 else 0) + Turns(who, m + 1, n, i)
  }

  // The winner has come to zstage_main.
  predicate InMain(pc: Pc) {
    pc.Main? || pc.Release? || pc.ReleaseStore? || pc.Leave? || pc.Gone?
  }

  // How many more steps of its own the winner takes at most before it calls zstage_main.
  function ToMain(l: Layout, pc: Pc): nat
    requires l.Valid()
  {
    var bss := l.bssEnd - l.bss;
    match pc
    case SaveLoad => bss + 8 + 2 * l.size
    case Relocate => bss + 7 + 2 * l.size
    case ReadSize(_) => bss + 6 + 2 * l.size
    case ReadLoad(_, _) => bss + 5 + 2 * l.size
    case CopyLower(dst, _, end, _) => bss + 4 + 2 * Distance(dst, end)
    case StoreLower(dst, _, end, _, _) => bss + 3 + 2 * Distance(dst, end)
    case CopyUpper(dst, _, start, _) => bss + 4 + 2 * Distance(start, dst)
    case StoreUpper(dst, _, start, _, _) => bss + 3 + 2 * Distance(start, dst)
    case MarkDone => bss + 4
    case MarkRead(_) => bss + 3
    case MarkStore(_, _) => bss + 2
    case SaveArg => bss + 1
    case ZeroBss(at) => Distance(at, l.run + l.bssEnd)
    case _ => 0
  }

  function Distance(a: int, b: int): nat {
    if a < b then b - a else 0
  }

  lemma LeaderNearer(l: Layout, img: seq<int>, mem: seq<int>, h: Hart, mem': seq<int>, h': Hart)
    requires Leads(l, img, mem, h) && HartStep(l, mem, h, mem', h') && !InMain(h.pc)
    ensures ToMain(l, h'.pc) < ToMain(l, h.pc)
  {
    hide HartStep, StartStep, CopyStep, FinishStep, Leads, ToMain;
    StepKind(l, mem, h, mem', h');
    NotWaiting(l, img, mem, h);
    if StartPc(h.pc) {
      NearerStart(l, img, mem, h, mem', h');
    } else if CopyPc(h.pc) {
      NearerCopy(l, img, mem, h, mem', h');
    } else {
      NearerFinish(l, img, mem, h, mem', h');
    }
  }

  lemma NotWaiting(l: Layout, img: seq<int>, mem: seq<int>, h: Hart)
    requires Leads(l, img, mem, h)
    ensures l.Valid() && !h.pc.Draw? && !WaitPc(h.pc) && h.pc != Hang
  {
    hide MemOk, Copied;
  }

  lemma NearerStart(l: Layout, img: seq<int>, mem: seq<int>, h: Hart, mem': seq<int>, h': Hart)
    requires Leads(l, img, mem, h) && StartStep(l, mem, h, mem', h') && !h.pc.Draw?
    ensures ToMain(l, h'.pc) < ToMain(l, h.pc)
  {
    hide CodeAt, ImageAt, Copied, GuardsHang, Clash;
    if h.pc.ReadLoad? {
      HeaderWords(l, img, mem, h.pc);
      assert l.(load := l.load, run := l.run, size := l.size) == l;
      GuardsExact(l);
      NoClash(l);
    }
  }

  lemma NearerCopy(l: Layout, img: seq<int>, mem: seq<int>, h: Hart, mem': seq<int>, h': Hart)
    requires Leads(l, img, mem, h) && CopyStep(mem, h, mem', h')
    ensures ToMain(l, h'.pc) < ToMain(l, h.pc)
  {
    hide MemOk, Copied;
  }

  lemma NearerFinish(l: Layout, img: seq<int>, mem: seq<int>, h: Hart, mem': seq<int>, h': Hart)
    requires Leads(l, img, mem, h) && FinishStep(l, mem, h, mem', h') && !InMain(h.pc)
    ensures ToMain(l, h'.pc) < ToMain(l, h.pc)
  {
    hide MemOk, Copied;
  }

  lemma WinnerLeads(l: Layout, img: seq<int>, s: State, w: nat)
    requires Inv(l, img, s) && Winner(s, w)
    ensures Led(l, img, s, w) && Leads(l, img, s.mem, s.harts[w])
  {
    hide MemOk, LeaderOk, Tickets, Linked;
    if x :| Led(l, img, s, x) {
      assert forall j :: 0 <= j < |s.harts| && j != x ==> FollowerOk(l, s.harts[x].pc, s.harts[j]);
    }
  }

  // zstage_main is not called again.
  lemma StaysInMain(l: Layout, mem: seq<int>, h: Hart, mem': seq<int>, h': Hart)
    requires HartStep(l, mem, h, mem', h') && InMain(h.pc)
    ensures InMain(h'.pc)
  {
  }

  // Once the winner has had that many turns it has come to zstage_main, whatever the others do.
  lemma {:induction false} ReachesMain(l: Layout, img: seq<int>, run: seq<State>, who: seq<nat>, m: nat, n: nat, w: nat)
    requires Scheduled(l, img, run, who) && m <= n < |run| && Winner(run[m], w) && l.Valid()
    requires InMain(run[m].harts[w].pc) || Turns(who, m, n, w) >= ToMain(l, run[m].harts[w].pc)
    ensures Winner(run[n], w) && InMain(run[n].harts[w].pc)
    decreases n - m
  {
    hide Inv, HartStep, Initial, Step, ToMain, Leads;
    var h := run[m].harts[w];
    RunInv(l, img, run, m);
    WinnerLeads(l, img, run[m], w);
    if m == n {
      NotFarther(l, img, run[m].mem, h);
    } else {
      assert StepOf(l, run[m], run[m + 1], who[m]);
      WinnerTurn(l, img, run[m], run[m + 1], who[m], w);
      ReachesMain(l, img, run, who, m + 1, n, w);
    }
  }

  lemma NotFarther(l: Layout, img: seq<int>, mem: seq<int>, h: Hart)
    requires Leads(l, img, mem, h)
    ensures ToMain(l, h.pc) == 0 ==> InMain(h.pc)
  {
    hide MemOk, Copied;
  }

  lemma WinnerTurn(l: Layout, img: seq<int>, s: State, s': State, i: nat, w: nat)
    requires StepOf(l, s, s', i) && Winner(s, w) && Leads(l, img, s.mem, s.harts[w])
    ensures l.Valid() && Winner(s', w)
    ensures i != w ==> s'.harts[w] == s.harts[w]
    ensures InMain(s.harts[w].pc) ==> InMain(s'.harts[w].pc)
    ensures i == w && !InMain(s.harts[w].pc) ==> ToMain(l, s'.harts[w].pc) < ToMain(l, s.harts[w].pc)
  {
    hide HartStep, MemOk, LeaderOk, ToMain;
    if i == w {
      var h' :| HartStep(l, s.mem, s.harts[i], s'.mem, h') && s'.harts == s.harts[i := h'];
      WonStays(l, s.mem, s.harts[i], s'.mem, h');
      if InMain(s.harts[w].pc) {
        StaysInMain(l, s.mem, s.harts[i], s'.mem, h');
      } else {
        LeaderNearer(l, img, s.mem, s.harts[i], s'.mem, h');
      }
    }
  }

  lemma WonStays(l: Layout, mem: seq<int>, h: Hart, mem': seq<int>, h': Hart)
    requires HartStep(l, mem, h, mem', h') && h.won
    ensures h'.won
  {
  }

  // How many more steps of its own a waiting hart takes at most once it has been released.
  function ToGone(pc: Pc): nat {
    match pc
    case Draw => 4
    case WaitRun => 3
    case WaitStatus(_) => 2
    case Spin => 1
    case _ => 0
  }

  lemma FollowerNearer(l: Layout, img: seq<int>, mem: seq<int>, w: Hart, h: Hart, mem': seq<int>, h': Hart)
    requires Linked(l, img) && MemOk(l, img, mem, w.pc) && FollowerOk(l, w.pc, h) && Released(l, w.pc)
    requires HartStep(l, mem, h, mem', h') && !h.pc.Gone? && l.nextRun != 0
    requires h.pc.Draw? ==> mem[l.load + l.lottery] != 0
    ensures ToGone(h'.pc) < ToGone(h.pc)
  {
    hide CodeAt, ImageAt;
  }

  lemma LotteryDrawn(l: Layout, img: seq<int>, s: State, w: nat, i: nat)
    requires Led(l, img, s, w) && w < |s.harts| && i < |s.harts| && i != w && s.harts[i].pc.Draw?
    ensures s.mem[l.load + l.lottery] != 0
  {
    hide MemOk, Drawn, LeaderOk;
    MemSizes(l, img, s.mem, s.harts[w].pc);
    DrawnUpdate(s.harts, i, s.harts[i]);
    DrawnUpdate(s.harts, w, s.harts[w]);
    LeaderDrawn(l, s.mem, s.harts[w]);
  }

  // Once the winner has released the others, each of them leaves for the next stage within four turns of its own.
  lemma {:induction false} AllLeave(l: Layout, img: seq<int>, run: seq<State>, who: seq<nat>, m: nat, n: nat,
                                    w: nat, i: nat)
    requires Scheduled(l, img, run, who) && m <= n < |run| && Winner(run[m], w) && l.nextRun != 0
    requires Released(l, run[m].harts[w].pc) && i < |run[m].harts| && i != w
    requires Turns(who, m, n, i) >= ToGone(run[m].harts[i].pc)
    ensures i < |run[n].harts| && run[n].harts[i].pc == Gone(l.nextRun)
    decreases n - m
  {
    hide Inv, HartStep, Initial, Step, Leads, MemOk, LeaderOk, Linked, Tickets;
    RunInv(l, img, run, m);
    WinnerLeads(l, img, run[m], w);
    assert FollowerOk(l, run[m].harts[w].pc, run[m].harts[i]);
    if m == n {
      NoTurnsLeft(l, run[m].harts[w].pc, run[m].harts[i]);
    } else {
      assert StepOf(l, run[m], run[m + 1], who[m]);
      FollowerTurn(l, img, run[m], run[m + 1], who[m], w, i);
      AllLeave(l, img, run, who, m + 1, n, w, i);
    }
  }

  lemma NoTurnsLeft(l: Layout, pc: Pc, h: Hart)
    requires FollowerOk(l, pc, h) && ToGone(h.pc) == 0
    ensures h.pc == Gone(l.nextRun)
  {
  }

  lemma FollowerTurn(l: Layout, img: seq<int>, s: State, s': State, x: nat, w: nat, i: nat)
    requires StepOf(l, s, s', x) && Led(l, img, s, w) && w < |s.harts| && Released(l, s.harts[w].pc)
    requires i < |s.harts| && i != w && l.nextRun != 0
    ensures |s'.harts| == |s.harts| && Winner(s', w) && Released(l, s'.harts[w].pc)
    ensures x != i ==> s'.harts[i] == s.harts[i]
    ensures x == i && !s.harts[i].pc.Gone? ==> ToGone(s'.harts[i].pc) < ToGone(s.harts[i].pc)
    ensures x == i && s.harts[i].pc.Gone? ==> false
  {
    hide HartStep, MemOk, LeaderOk, Tickets, Linked;
    var h' :| HartStep(l, s.mem, s.harts[x], s'.mem, h') && s'.harts == s.harts[x := h'];
    assert FollowerOk(l, s.harts[w].pc, s.harts[i]);
    if x == w {
      WonStays(l, s.mem, s.harts[x], s'.mem, h');
      ReleasedStays(l, s.mem, s.harts[x], s'.mem, h');
    } else if x == i {
      NoStepWhenGone(l, s.mem, s.harts[x], s'.mem, h');
      if s.harts[i].pc.Draw? {
        LotteryDrawn(l, img, s, w, i);
      }
      FollowerNearer(l, img, s.mem, s.harts[w], s.harts[i], s'.mem, h');
    }
  }

  lemma ReleasedStays(l: Layout, mem: seq<int>, h: Hart, mem': seq<int>, h': Hart)
    requires HartStep(l, mem, h, mem', h') && Released(l, h.pc)
    ensures Released(l, h'.pc)
  {
  }

  lemma NoStepWhenGone(l: Layout, mem: seq<int>, h: Hart, mem': seq<int>, h': Hart)
    requires HartStep(l, mem, h, mem', h')
    ensures !h.pc.Gone?
  {
  }
}

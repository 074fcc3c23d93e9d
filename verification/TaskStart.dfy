/** What a new user task finds when it runs for the first time: the stack below its stack pointer. */
module TaskStart {
  import opened Options
  import opened PageIndex
  import opened PageTables
  import opened Scheduling
  import opened Tasks
  import opened UserStack

  /** The 16 KiB below the top of the user stack translate, page by page, into the four frames of the stack, and user
      code may write there unless a table that was there before the stack was mapped keeps it out. */
  lemma StackBelowTop(s0: Space, s: Space, dir: nat, frames: seq<nat>, address: nat)
    requires StackSoFar(s0, s, dir, frames) && IsRoot(s0, dir) && |frames| == 4
    requires forall f :: f in frames ==> f < 0x100_0000_0000
    requires 0x5FFF_FFFF_C000 <= address < 0x6000_0000_0000
    ensures Translate(s.mem, dir, address) ==
      Some(frames[(address - 0x5FFF_FFFF_C000) / 0x1000] * 0x1000 + address % 0x1000)
    ensures UserWritable(s.mem, dir, PathOf(address)) <==> TablesOpen(s0.mem, dir, PathOf(address))
    ensures !Present(ReadEntry(s0.mem, dir, 191)) ==> UserWritable(s.mem, dir, PathOf(address))
  {
    hide StackSoFar, PathOf, Translate, UserWritable, TablesOpen, ReadEntry, StackPath;
    var i := (address - 0x5FFF_FFFF_C000) / 0x1000;
    assert StackPage(i) <= address < StackPage(i + 1);
    assert frames[i] in frames;
    StackTranslates(s0, s, dir, frames, i, address);
    StackPageInPath(i, address);
    StackRights(s0, s, dir, frames, i);
    assert address - StackPage(i) == address % 0x1000;
  }

  /** A task created with directory `dir` and its stack mapped there runs for the first time with `dir` in force, its
      stack pointer right above the stack, and every byte of the 16 KiB below in a frame of its own. */
  lemma FirstRunHasStack<R>(ss: seq<State<R>>, es: seq<Event<R>>, r: R, m: nat, n: nat,
                            s0: Space, s: Space, frames: seq<nat>, depth: nat)
    requires Behavior(ss, es) && m <= n < |es|
    requires es[n].Timer? && ss[n + 1].current == r && es[m].Create? && es[m].r == r
    requires forall j :: m < j <= n ==> ss[j].current != r && (es[j].Create? ==> es[j].r != r)
    requires StackSoFar(s0, s, es[m].pageDir, frames) && IsRoot(s0, es[m].pageDir) && |frames| == 4
    requires forall f :: f in frames ==> f < 0x100_0000_0000
    requires 0 < depth <= 4 * 0x1000
    ensures Known(ss[n].order, ss[n].task) && ss[n].current in ss[n].order && ss[n].dummy in ss[n].task
    ensures Tick(ss[n], es[n].frame).Switched?
    ensures var top := Tick(ss[n], es[n].frame).loaded.rsp;
      && depth <= top
      && Translate(s.mem, ss[n + 1].pageDir, top - depth) ==
           Some(frames[(4 * 0x1000 - depth) / 0x1000] * 0x1000 + (4 * 0x1000 - depth) % 0x1000)
      && (UserWritable(s.mem, ss[n + 1].pageDir, PathOf(top - depth)) <==>
            TablesOpen(s0.mem, ss[n + 1].pageDir, PathOf(top - depth)))
  {
    hide StackSoFar, PathOf, Translate, UserWritable, TablesOpen, Tick, Behavior;
    FirstResume(ss, es, r, m, n);
    StackBelowTop(s0, s, es[m].pageDir, frames, 0x6000_0000_0000 - depth);
  }
}

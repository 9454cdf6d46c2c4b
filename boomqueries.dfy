/**
 * The module instance: one registry, and the resize scheduler with the
 * engine's own `update` registered as a callback when the module loads.
 */
module BoomQueries {
  import opened Wrappers
  import opened Dom
  import opened Registry
  import opened Resize

  /** The handler the module registers at load time; it runs `update()`. */
  const UpdateHandler: Handler := 0

  class Engine {
    const registry: ElementRegistry
    const scheduler: Scheduler

    ghost predicate Valid()
      reads this, registry, registry.page, scheduler
    {
      registry.Valid() && scheduler.Valid()
    }

    /** Loading the module: empty registry, `update` registered, scheduler idle and listening. */
    constructor (page: Page)
      ensures Valid() && fresh(registry) && fresh(scheduler)
      ensures registry.page == page && registry.nodes == [] && registry.selectors == map[]
      ensures scheduler.callbacks == [UpdateHandler] && !scheduler.running && scheduler.listening
    {
      registry := new ElementRegistry(page);
      var s := new Scheduler();
      s.Add(Some(UpdateHandler));
      scheduler := s;
    }

    /**
     * The deferred run firing: every callback runs in order; the engine's
     * own callback re-checks every tracked element, and running it more
     * than once in one frame gives the same classes as running it once.
     * `running` is cleared before the callbacks' effects are applied, whereas
     * the source clears it after they run; nothing here can signal a resize
     * during the run, so the order cannot be observed.
     */
    method Frame(host: Host) returns (invoked: seq<Handler>)
      requires Valid()
      modifies scheduler, registry.page
      ensures Valid()
      ensures invoked == old(scheduler.callbacks) && !scheduler.running
      ensures scheduler.callbacks == old(scheduler.callbacks)
      ensures registry.page.breaks == old(registry.page.breaks)
      ensures registry.page.selector == old(registry.page.selector) && scheduler.listening == old(scheduler.listening)
      ensures forall x :: registry.page.ClassesOf(x) ==
                if x in registry.nodes && UpdateHandler in invoked
                then CheckedFor(old(registry.page.ClassesOf(x)), registry.page.breaks[x], host, x)
                else old(registry.page.ClassesOf(x))
    {
      invoked := scheduler.RunCallbacks();
      var page := registry.page;
      for i := 0 to |invoked|
        invariant Valid()
        invariant scheduler.callbacks == old(scheduler.callbacks) && !scheduler.running
        invariant page.breaks == old(page.breaks)
        invariant page.selector == old(page.selector) && scheduler.listening == old(scheduler.listening)
        invariant forall x :: page.ClassesOf(x) ==
                    if x in registry.nodes && UpdateHandler in invoked[..i]
                    then CheckedFor(old(page.ClassesOf(x)), page.breaks[x], host, x)
                    else old(page.ClassesOf(x))
      {
        assert invoked[..i + 1] == invoked[..i] + [invoked[i]];
        if invoked[i] == UpdateHandler {
          registry.Update(host);
          forall x | x in registry.nodes && UpdateHandler in invoked[..i]
            ensures CheckedFor(CheckedFor(old(page.ClassesOf(x)), page.breaks[x], host, x), page.breaks[x], host, x)
                    == CheckedFor(old(page.ClassesOf(x)), page.breaks[x], host, x)
          {
            CheckedForIdempotent(old(page.ClassesOf(x)), page.breaks[x], host, x);
          }
        }
      }
      assert invoked[..|invoked|] == invoked;
    }
  }
}

/** Whole runs of the driver object: its memory follows the runs the invariants
are proved over. */
module Drive {
  import opened SwitchSpec
  import opened Switch
  import opened Conservation

  // One entry into the driver, or one change made by instrumentation.
  method Step(d: Driver, e: Event, load: nat)
    requires d.Valid()
    modifies d, d.table, d.table.entries, d.table.next, d.table.bins, d.heap, d.heap.timers, d.heap.next, d.av, d.av.addrs
    ensures d.Valid() && d.Abs() == Next(old(d.Abs()), e, load)
  {
    match e
    case SwitchOut(th, cpu, hw) => d.OnSwitchOut(th, cpu, hw, load);
    case SwitchIn(th, cpu, hw) => d.OnSwitchIn(th, cpu, hw, load);
    case Register(a) => var _ := d.AddToAllVtimers(a);
    case Deregister(a) => var _ := d.RemoveFromAllVtimers(a);
    case Toggle => d.ToggleSwitchHandling();
    case Clear => d.ClearClientState();
    case Instrument(m) => d.SetMemory(m);
  }

  method Drive(d: Driver, evs: seq<Event>, load: nat)
    requires d.Valid()
    modifies d, d.table, d.table.entries, d.table.next, d.table.bins, d.heap, d.heap.timers, d.heap.next, d.av, d.av.addrs
    ensures d.Valid() && d.Abs() == Run(old(d.Abs()), evs, load)
  {
    var i := 0;
    while i < |evs|
      invariant i <= |evs| && d.Valid()
      invariant Run(d.Abs(), evs[i..], load) == Run(old(d.Abs()), evs, load)
    {
      assert evs[i..][0] == evs[i] && evs[i..][1..] == evs[i + 1..];
      Step(d, evs[i], load);
      i := i + 1;
    }
  }
}

/** A reluctant collection that erases more than one sector (cfs-coffee.c). */
module CoffeeReluctant {
  import opened CoffeeWalk
  import opened CoffeeCollector
  import opened CoffeeVolume

  /** Two sectors of two pages, each of them an obsolete file. */
  ghost predicate TwoObsolete(f: seq<Page>) {
    && |f| == 4
    && f[0].hdr == FileHeader("one", 2, false).(obsolete := true)
    && f[2].hdr == FileHeader("two", 2, false).(obsolete := true)
  }

  lemma TwoDue(f: seq<Page>)
    requires TwoObsolete(f)
    ensures Walkable(f, 2) && Due(Reluctant, f, 2, 0) && Due(Reluctant, f, 2, 2)
    ensures !Cuts(f, 2, 0) && !Cuts(f, 2, 2)
  {
    assert Ok(f, 2, 4, 4) && Land(f, 2, 4, 4) == 4;
    assert Ok(f, 2, 2, 4) && Land(f, 2, 2, 4) == 4 && Starts(f, 2, 2, 4) == {};
    assert Ok(f, 2, 2, 2) && Land(f, 2, 2, 2) == 2;
    assert Ok(f, 2, 0, 2) && Land(f, 2, 0, 2) == 2 && Starts(f, 2, 0, 2) == {};
    assert Ok(f, 2, 0, 4) && Land(f, 2, 0, 4) == 4 && Starts(f, 2, 0, 4) == {};
    assert !MeetsFree(f, 2, 2, 4) && !MeetsFree(f, 2, 0, 2);
  }

  /** A pass over them goes to the end and leaves both sectors blank. */
  lemma BothErased(f0: seq<Page>, f: seq<Page>, reached: nat)
    requires TwoObsolete(f0) && Walkable(f0, 2) && reached <= |f0| && Boundary(reached, 2)
    requires Reworked(Reluctant, f0, f, 2, reached) && RunsTo(Reluctant, f0, 2, reached)
    requires reached < |f0| ==> 2 <= reached && Stops(Reluctant, f0, 2, reached - 2)
    ensures reached == |f0| && AllErased(f, 0, 2) && AllErased(f, 2, 4)
  {
    TwoDue(f0);
    assert reached != 3;
    assert reached == 4;
  }

  method CollectReluctantly(v: Volume)
    requires v.Valid() && v.P == 2 && TwoObsolete(v.flash[..])
    modifies v, v.flash
    ensures AllErased(v.flash[..], 0, 2) && AllErased(v.flash[..], 2, 4)
  {
    hide Ok, Land, Starts, Due, Stops, RunsTo, Reworked;
    ghost var f0 := v.flash[..];
    TwoDue(f0);
    var reached := v.CollectGarbage(Reluctant);
    BothErased(f0, v.flash[..], reached);
  }
}

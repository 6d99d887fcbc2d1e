/**
 Exactly when the versioned loader's operations succeed, on the versions loaded and the answers of the
 outside world, and what each leaves of the three tables.
 */
module VersionOutcomes {
  import opened Basics
  import opened VersionLoader

  /** The registry takes the request to mean this version. */
  predicate Names(world: World, version: Option<Version>, v: Version) {
    world.known && match version case None => world.latest == Some(v) case Some(w) => w == v && world.versionExists
  }

  /** The tables say the same about this model. */
  predicate SameFor(s: State, s': State, id: ModelId) {
    && (id in s.loaded <==> id in s'.loaded) && Slots(s, id) == Slots(s', id)
    && (id in s.metrics <==> id in s'.metrics) && Metrics(s, id) == Metrics(s', id)
    && (id in s.active <==> id in s'.active) && (id in s.active ==> s.active[id] == s'.active[id])
  }

  lemma {:induction false} InstanceIsSlot(slots: seq<Slot>, version: Version)
    ensures InstanceOf(slots, version).Some? ==> Slot(version, InstanceOf(slots, version).value) in slots
  {
    if slots == [] {
    } else {
      assert slots == [slots[0]] + slots[1..];
      InstanceIsSlot(slots[1..], version);
    }
  }

  lemma LoadTouchesOneModel(s: State, id: ModelId, version: Option<Version>, world: World, now: real, other: ModelId)
    requires other != id
    ensures SameFor(s, Load(s, id, version, world, now).0, other)
  {
  }

  /** What a load of a named version leaves: used now if it was loaded, added at the end if it comes up. */
  lemma LoadLeaves(s: State, id: ModelId, version: Option<Version>, world: World, now: real, v: Version)
    requires SoundFor(s, id) && Names(world, version, v)
    ensures var s' := Load(s, id, version, world, now).0;
      if v in Versions(Slots(s, id)) then s' == s.(metrics := s.metrics[id := Metrics(s, id)[v := now]])
      else if world.instance.None? then s' == s
      else && Slots(s', id) == Slots(s, id) + [Slot(v, world.instance.value)]
           && id in s'.metrics && s'.metrics[id] == Metrics(s, id)[v := now]
           && s'.active == if id in s.active then s.active else s.active[id := v]
  {
    InstanceFound(Slots(s, id), v);
  }

  /**
   On sound tables a load of a version the registry names succeeds exactly if that version is loaded
   already, or comes up and is valid. It then answers with that version's instance, has marked it as used
   now, and leaves another version active if one was.
   */
  lemma LoadsExactly(s: State, id: ModelId, version: Option<Version>, world: World, now: real, v: Version)
    requires Sound(s) && Names(world, version, v)
    ensures var (s', result) := Load(s, id, version, world, now);
      && (result.Loaded? <==> v in Versions(Slots(s, id)) || (world.instance.Some? && world.valid))
      && (result.Loaded? ==>
            && Slot(v, result.instance) in Slots(s', id) && v in Metrics(s', id) && Metrics(s', id)[v] == now
            && id in s'.active && s'.active[id] == if id in s.active then s.active[id] else v)
  {
    assert SoundFor(s, id);
    InstanceFound(Slots(s, id), v);
    InstanceIsSlot(Slots(s, id), v);
    LoadLeaves(s, id, version, world, now, v);
  }

  /** A load of nothing the registry names fails and leaves the tables alone. */
  lemma UnnamedLoadsNothing(s: State, id: ModelId, version: Option<Version>, world: World, now: real)
    requires forall v :: !Names(world, version, v)
    ensures Load(s, id, version, world, now) == (s, LoadError)
  {
    var v := if version.Some? then version.value else if world.latest.Some? then world.latest.value else Version("");
    assert !Names(world, version, v);
  }

  /**
   On any tables a switch succeeds exactly if the registry has the version and it is loaded already, or
   the model is known and the version comes up and is valid. That version is then the active one; a switch
   to a loaded version changes nothing else, and one that fails leaves an active version active.
   */
  lemma SwitchesExactly(s: State, id: ModelId, version: Version, world: World, now: real)
    ensures var (s', ok) := Switch(s, id, version, world, now);
      && (ok <==> world.versionExists
                  && (version in Versions(Slots(s, id)) || (world.known && world.instance.Some? && world.valid)))
      && (ok ==> id in s'.active && s'.active[id] == version && version in Versions(Slots(s', id)))
      && (ok && version in Versions(Slots(s, id)) ==> s' == s.(active := s.active[id := version]))
      && (!ok && id in s.active ==> s'.active == s.active)
      && forall other :: other != id ==> SameFor(s, s', other)
  {
    InstanceFound(Slots(s, id), version);
    if world.instance.Some? {
      VersionsAppend(Slots(s, id), Slot(version, world.instance.value));
    }
  }

  /**
   On sound tables asking for the active model answers with the active version's instance and changes
   nothing; when none is active it loads the latest, which succeeds exactly if that is known, comes up and
   is valid, and is active from then on.
   */
  lemma AnswersExactly(s: State, id: ModelId, world: World, now: real)
    requires Sound(s)
    ensures var (s', answer) := GetActive(s, id, world, now);
      && (id in s.active ==>
            && s' == s && answer.Active? && answer.version == Some(s.active[id])
            && Slot(s.active[id], answer.instance) in Slots(s, id))
      && (id !in s.active ==>
            if world.known && world.latest.Some? && world.instance.Some? && world.valid
            then answer == Active(world.instance.value, world.latest)
                 && id in s'.active && s'.active[id] == world.latest.value
            else answer == NoActive)
  {
    assert SoundFor(s, id);
    if id in s.active {
      InstanceFound(Slots(s, id), s.active[id]);
      InstanceIsSlot(Slots(s, id), s.active[id]);
    } else if world.known && world.latest.Some? {
      assert Names(world, None, world.latest.value);
      LoadsExactly(s, id, None, world, now, world.latest.value);
      assert Versions(Slots(s, id)) == {};
    }
  }

  /**
   Unloading a version succeeds exactly if it is loaded and its hook does not raise; either way that
   version alone goes, and what was not loaded leaves the tables alone.
   */
  lemma UnloadsExactly(s: State, id: ModelId, version: Version, hookRaises: bool)
    requires Sound(s)
    ensures var (s', ok) := UnloadVersion(s, id, version, hookRaises);
      && (ok <==> version in Versions(Slots(s, id)) && !hookRaises)
      && Versions(Slots(s', id)) == Versions(Slots(s, id)) - {version}
      && (version !in Versions(Slots(s, id)) ==> s' == s)
      && forall other :: other != id ==> SameFor(s, s', other)
  {
    assert SoundFor(s, id);
    InstanceFound(Slots(s, id), version);
    if version in Versions(Slots(s, id)) {
      DropVersionDrops(s.loaded[id], version);
      assert DropVersion(s.loaded[id], version) == [] ==> Versions(DropVersion(s.loaded[id], version)) == {};
    }
  }

  /** Unloading a model succeeds exactly if it is loaded and no hook raises, and then none of the tables names it. */
  lemma UnloadsAllExactly(s: State, id: ModelId, raises: Version -> bool)
    ensures var (s', ok) := UnloadAll(s, id, raises);
      && (ok <==> id in s.loaded && forall slot :: slot in s.loaded[id] ==> !raises(slot.version))
      && (ok ==> id !in s'.loaded && id !in s'.active && id !in s'.metrics)
      && forall other :: other != id ==> SameFor(s, s', other)
  {
    if id in s.loaded {
      var slots, n := s.loaded[id], Released(s.loaded[id], raises);
      if n < |slots| {
        assert slots[n] in slots;
      }
    }
  }
}

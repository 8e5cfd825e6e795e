/** src/smc/cache.rs: a 256-slot key-info cache with no tags, and when that is invisible. */
module KeyCache {
  import opened Floats
  import opened SmcTypes

  function Blank(): (s: seq<Option<KeyInfo>>)
    ensures |s| == 256 && forall i :: 0 <= i < 256 ==> s[i] == None
  {
    seq(256, _ => None)
  }

  type Slots = s: seq<Option<KeyInfo>> | |s| == 256 witness Blank()

  function Slot(key: nat): nat { key % 256 }

  class KeyInfoCache {
    const slots: array<Option<KeyInfo>>

    ghost predicate Valid()
      reads this, slots
    {
      slots.Length == 256
      && forall i :: 0 <= i < 256 && slots[i].Some? ==> slots[i].value.size <= 32
    }

    constructor ()
      ensures Valid() && slots[..] == Blank() && fresh(slots)
    {
      slots := new Option<KeyInfo>[256](_ => None);
    }

    method Get(key: nat) returns (info: Option<KeyInfo>)
      requires Valid()
      ensures info == slots[..][Slot(key)]
    {
      var idx := key % 256;
      info := slots[idx];
    }

    method Put(key: nat, info: KeyInfo)
      requires Valid() && info.size <= 32
      modifies slots
      ensures Valid() && slots[..] == old(slots[..])[Slot(key) := Some(info)]
    {
      var idx := key % 256;
      slots[idx] := Some(info);
    }

    method Invalidate(key: nat)
      requires Valid()
      modifies slots
      ensures Valid() && slots[..] == old(slots[..])[Slot(key) := None]
    {
      var idx := key % 256;
      slots[idx] := None;
    }
  }

  // ---- lookups against a fixed key table -------------------------------------------------

  // What an uncached lookup of each key answers, every time.
  type Table = nat -> Result<KeyInfo>

  // A lookup, or the eviction that follows a key-not-found on a value read.
  datatype Event = Lookup(key: nat) | Evict(key: nat)

  function Answer(slots: Slots, table: Table, key: nat): Result<KeyInfo> {
    match slots[Slot(key)]
    case Some(info) => Ok(info)
    case None => table(key)
  }

  // What a lookup that had to ask leaves in the cache.
  function Remember(slots: Slots, key: nat, answer: Result<KeyInfo>): Slots {
    match answer
    case Ok(info) => slots[Slot(key) := Some(info)]
    case Err(KeyNotFound(_)) => slots[Slot(key) := None]
    case Err(_) => slots
  }

  function Next(slots: Slots, table: Table, e: Event): Slots {
    match e
    case Evict(key) => slots[Slot(key) := None]
    case Lookup(key) => if slots[Slot(key)].Some? then slots else Remember(slots, key, table(key))
  }

  function After(table: Table, events: seq<Event>): Slots {
    if events == [] then Blank()
    else Next(After(table, events[..|events| - 1]), table, events[|events| - 1])
  }

  lemma AfterOneMore(table: Table, events: seq<Event>, e: Event)
    ensures After(table, events + [e]) == Next(After(table, events), table, e)
  {
    assert (events + [e])[..|events|] == events;
  }

  ghost predicate Over(events: seq<Event>, keys: set<nat>) {
    forall e :: e in events && e.Lookup? ==> e.key in keys
  }

  // However the keys in use are looked up and evicted, a lookup answers as if uncached.
  ghost predicate Transparent(table: Table, keys: set<nat>) {
    forall events, key :: Over(events, keys) && key in keys ==>
      Answer(After(table, events), table, key) == table(key)
  }

  // Keys that share a slot with a present key are present with the same size and type.
  ghost predicate Agree(table: Table, keys: set<nat>) {
    forall a, b :: a in keys && b in keys && Slot(a) == Slot(b) && table(a).Ok? ==> table(b) == table(a)
  }

  ghost predicate Coherent(slots: Slots, table: Table, keys: set<nat>) {
    forall key :: key in keys && slots[Slot(key)].Some? ==> table(key) == Ok(slots[Slot(key)].value)
  }

  lemma {:induction false} StaysCoherent(table: Table, keys: set<nat>, events: seq<Event>)
    requires Agree(table, keys) && Over(events, keys)
    ensures Coherent(After(table, events), table, keys)
  {
    if events != [] {
      var n := |events| - 1;
      assert Over(events[..n], keys);
      StaysCoherent(table, keys, events[..n]);
      assert events[n] in events;
    }
  }

  // The untagged cache is invisible exactly when keys sharing a low byte agree.
  lemma TransparentIff(table: Table, keys: set<nat>)
    ensures Transparent(table, keys) <==> Agree(table, keys)
  {
    if Agree(table, keys) {
      forall events, key | Over(events, keys) && key in keys
        ensures Answer(After(table, events), table, key) == table(key)
      {
        StaysCoherent(table, keys, events);
      }
    }
    if Transparent(table, keys) {
      forall a, b | a in keys && b in keys && Slot(a) == Slot(b) && table(a).Ok?
        ensures table(b) == table(a)
      {
        var events := [Lookup(a)];
        assert events[..0] == [];
        assert Answer(After(table, events), table, b) == table(b);
      }
    }
  }

  // A machine that names its mode registers `F0Md`, `F1Md`: the probe of fan 1 is answered
  // from fan 0's slot, so the absent lowercase `F1md` looks present.
  lemma UppercaseMachineMisprobed(table: Table)
    requires table(FanKey(0, 'm', 'd')) == Err(KeyNotFound(FanKey(0, 'm', 'd')))
    requires table(FanKey(0, 'M', 'd')) == Ok(KeyInfo(1, TYPE_UI8))
    requires table(FanKey(1, 'm', 'd')) == Err(KeyNotFound(FanKey(1, 'm', 'd')))
    ensures var probed := [Lookup(FanKey(0, 'm', 'd')), Lookup(FanKey(0, 'M', 'd'))];
            Answer(After(table, probed), table, FanKey(1, 'm', 'd')) == Ok(KeyInfo(1, TYPE_UI8))
  {
    var a, b := Lookup(FanKey(0, 'm', 'd')), Lookup(FanKey(0, 'M', 'd'));
    assert [a, b][..1] == [a] && [a][..0] == [];
    assert After(table, [a]) == Blank();
  }
}

/** The reassembler: a map of entries, each with its 64K buffer, changed packet by packet just
  * as the value of all entries is. */
module Ipv4Reassembler {
  import opened Bytes
  import opened Ipv4Fragments

  /** The buffer is a member of the entry, not an object of its own. */
  class Ipv4Assembled {
    var buffer: seq<byte>
    var currentLength: nat
    var totalLength: nat
    var timeStamp: nat
    /** The id it is stored under. */
    ghost const id: nat

    /** The buffer holds whatever memory held before. */
    constructor (ghost id: nat)
      ensures this.id == id && |buffer| == BUFFER_SIZE
      ensures currentLength == 0 && totalLength == 0 && timeStamp == 0
    {
      var memory: seq<byte> :| |memory| == BUFFER_SIZE by { assert |seq(BUFFER_SIZE, _ => 0 as byte)| == BUFFER_SIZE; }
      buffer := memory;
      currentLength, totalLength, timeStamp := 0, 0, 0;
      this.id := id;
    }

    function View(): Assembly
      reads this
    {
      Assembly(buffer, currentLength, totalLength, timeStamp)
    }

    method Store(p: Packet, now: nat)
      requires p.offset + |p.payload| <= |buffer|
      modifies this
      ensures View() == Ipv4Fragments.Store(old(View()), p, now)
    {
      timeStamp := now;
      buffer := buffer[..p.offset] + p.payload + buffer[p.offset + |p.payload|..];
      currentLength := (currentLength + |p.payload|) % UINT32;
      if !p.more {
        totalLength := p.offset + |p.payload|;
      }
    }
  }

  class Ipv4Reassembler {
    var storage: map<nat, Ipv4Assembled>
    /** The packets the listeners were given. */
    var delivered: seq<Packet>

    constructor ()
      ensures Valid() && View() == State(map[], []) && storage == map[]
    {
      storage, delivered := map[], [];
    }

    ghost predicate Valid()
      reads this, storage.Values
    {
      forall id | id in storage :: storage[id].id == id
    }

    ghost function Storage(): (m: map<nat, Assembly>)
      reads this, storage.Values
      ensures m.Keys == storage.Keys
    {
      map id | id in storage :: storage[id].View()
    }

    ghost function View(): State
      reads this, storage.Values
    {
      State(Storage(), delivered)
    }

    method PurgeOld(ts: nat)
      requires Valid()
      modifies this
      ensures Valid() && storage.Values <= old(storage.Values) && View() == Purge(old(View()), ts)
    {
      PurgeEntries(ts);
      hide Old;
      assert Storage() == Purge(old(View()), ts).storage;
    }

    method PurgeEntries(ts: nat)
      requires Valid()
      modifies this`storage
      ensures Valid() && storage.Values <= old(storage.Values)
      ensures forall id | id in storage :: id in old(storage) && storage[id] == old(storage[id])
      ensures forall id | id in old(storage) :: id in storage <==> !Old(old(storage)[id].View(), ts)
    {
      var todo := storage.Keys;
      ghost var was := storage;
      while todo != {}
        invariant Valid() && todo <= storage.Keys && storage.Values <= was.Values
        invariant forall id | id in storage :: id in was && storage[id] == was[id]
        invariant forall id | id in was :: id in storage <==> id in todo || !Old(was[id].View(), ts)
        decreases |todo|
      {
        var id :| id in todo;
        var age := (ts - storage[id].timeStamp) % UINT64;
        if age > PURGE_AFTER_MS {
          storage := storage - {id};
        }
        todo := todo - {id};
      }
    }

    /** Finds the entry of an id or makes a new one. */
    method Touch(id: nat) returns (entry: Ipv4Assembled, ghost blank: seq<byte>)
      requires Valid()
      modifies this
      ensures Valid() && delivered == old(delivered) && fresh(storage.Values - old(storage.Values))
      ensures id in storage && storage[id] == entry && |blank| == BUFFER_SIZE
      ensures var s := old(Storage());
        Storage() == s[id := if id in s then s[id] else Assembly(blank, 0, 0, 0)]
    {
      blank := seq(BUFFER_SIZE, _ => 0);
      if id in storage {
        entry := storage[id];
      } else {
        entry := new Ipv4Assembled(id);
        blank := entry.buffer;
        storage := storage[id := entry];
      }
      assert Storage() == old(Storage())[id := if id in old(Storage()) then old(Storage())[id] else Assembly(blank, 0, 0, 0)];
    }

    /** Finds the entry and writes the fragment into it. */
    method StoreFragment(p: Packet, now: nat) returns (entry: Ipv4Assembled, ghost blank: seq<byte>)
      requires Valid() && Sound(View()) && p.offset + |p.payload| <= BUFFER_SIZE
      modifies this, storage.Values
      ensures Valid() && delivered == old(delivered) && fresh(storage.Values - old(storage.Values)) && |blank| == BUFFER_SIZE
      ensures p.id in storage && storage[p.id] == entry
      ensures var e := EntryOf(old(View()), Arrival(p, now, 0, blank));
        && SoundEntry(e) && entry.View() == Ipv4Fragments.Store(e, p, now)
        && Storage() == old(Storage())[p.id := entry.View()]
    {
      hide Ipv4Fragments.Store;
      ghost var s := View();
      entry, blank := Touch(p.id);
      assert Storage()[p.id] == entry.View() == EntryOf(s, Arrival(p, now, 0, blank));
      StoreSound(entry.View(), p, now);
      entry.Store(p, now);
      assert Storage() == s.storage[p.id := entry.View()];
    }

    method TakeFragment(p: Packet, now: nat) returns (ghost blank: seq<byte>)
      requires Valid() && Sound(View()) && p.offset + |p.payload| <= BUFFER_SIZE
      modifies this, storage.Values
      ensures Valid() && fresh(storage.Values - old(storage.Values)) && |blank| == BUFFER_SIZE
      ensures var a := Arrival(p, now, 0, blank);
        SoundEntry(EntryOf(old(View()), a)) && View() == Ipv4Fragments.TakeFragment(old(View()), a)
    {
      hide Ipv4Fragments.Store, Whole, Sound, EntryOf;
      ghost var s := View();
      var entry;
      entry, blank := StoreFragment(p, now);
      ghost var e := entry.View();
      StoreSound(EntryOf(s, Arrival(p, now, 0, blank)), p, now);
      assert s.storage[p.id := e] - {p.id} == s.storage - {p.id};
      if entry.totalLength != 0 && entry.totalLength == entry.currentLength {
        Deliver(p, entry);
      }
    }

    /** Hands the whole on with the headers of the last fragment, and forgets the entry. */
    method Deliver(p: Packet, entry: Ipv4Assembled)
      requires Valid() && p.id in storage && storage[p.id] == entry && entry.currentLength <= |entry.buffer|
      modifies this
      ensures Valid() && storage == old(storage) - {p.id} && Storage() == old(Storage()) - {p.id}
      ensures delivered == old(delivered) + [Whole(p, entry.buffer[..entry.currentLength])]
    {
      var tmp := entry.buffer[..entry.currentLength];
      delivered := delivered + [p.(totalLength := (p.headerLength + entry.currentLength) % UINT16, offset := 0, more := false,
                                   payload := tmp)];
      storage := storage - {p.id};
    }

    /** One packet: what it does is what the state machine says, with some content of memory for
      * a new entry. */
    method OnPacket(p: Packet, now: nat, purgeNow: nat) returns (ghost blank: seq<byte>)
      requires Valid() && Sound(View()) && p.offset + |p.payload| <= BUFFER_SIZE
      modifies this, storage.Values
      ensures Valid() && fresh(storage.Values - old(storage.Values)) && |blank| == BUFFER_SIZE
      ensures var a := Arrival(p, now, purgeNow, blank);
        && SoundEntry(EntryOf(old(View()), a)) && Sound(View())
        && View() == Ipv4Fragments.OnPacket(old(View()), a)
    {
      hide Ipv4Fragments.Store, Complete, Purge, Sound;
      blank := seq(BUFFER_SIZE, _ => 0);
      ghost var s := View();
      OnPacketSound(s, Arrival(p, now, purgeNow, blank));
      if !p.ipv4 { return; }
      if p.offset == 0 && !p.more {
        delivered := delivered + [p];
        assert Storage() == old(Storage());
      } else {
        blank := TakeFragment(p, now);
        OnPacketSound(s, Arrival(p, now, purgeNow, blank));
      }
      PurgeOld(purgeNow);
    }
  }
}

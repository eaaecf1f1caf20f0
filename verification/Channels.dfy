/** The channel manager of src/channel.c: named transports, opened once and torn down once. */
module Channels {
  import opened Basics
  import opened Chains
  import opened HashMaps
  import opened Iterators

  datatype Status = Success | AlreadyOpen | OpenFailed | UnknownType | NotOpen | OutOfMemory

  datatype Channel = Channel(id: int, speed: int, device: string, isServer: bool, kind: int, data: int)

  /** The transport operations in the order they are called; a setup is recorded when it succeeds. */
  datatype Event = Setup(name: string, data: int) | Flush(data: int) | Teardown(name: string, data: int)

  function Apply(live: map<string, int>, e: Event): map<string, int> {
    match e
    case Setup(name, data) => live[name := data]
    case Flush(_) => live
    case Teardown(name, _) => live - {name}
  }

  /** Only a name that is not live is set up, and only a live transport is torn down. */
  ghost predicate Fits(live: map<string, int>, e: Event) {
    match e
    case Setup(name, _) => name !in live
    case Flush(_) => true
    case Teardown(name, data) => name in live && live[name] == data
  }

  /** The transports set up and not yet torn down. */
  function Live(trace: seq<Event>): map<string, int> {
    if trace == [] then map[] else Apply(Live(trace[..|trace| - 1]), trace[|trace| - 1])
  }

  ghost predicate Paired(trace: seq<Event>) {
    forall i {:trigger trace[i]} :: 0 <= i < |trace| ==> Fits(Live(trace[..i]), trace[i])
  }

  lemma PairedStep(trace: seq<Event>, e: Event)
    requires Paired(trace) && Fits(Live(trace), e)
    ensures Paired(trace + [e]) && Live(trace + [e]) == Apply(Live(trace), e)
  {
    var longer := trace + [e];
    assert longer[..|trace|] == trace;
    forall i | 0 <= i < |longer|
      ensures Fits(Live(longer[..i]), longer[i])
    {
      assert i < |trace| ==> longer[i] == trace[i] && longer[..i] == trace[..i];
    }
  }

  /** Whether the event sets this name up, or tears it down. */
  predicate Changes(e: Event, name: string, setup: bool) {
    if setup then e.Setup? && e.name == name else e.Teardown? && e.name == name
  }

  predicate Undoes(e: Event, name: string, setup: bool) {
    Changes(e, name, !setup)
  }

  /** A name that is live stays so until it is torn down, and one that is not until it is set up. */
  lemma {:induction false} LiveUntil(trace: seq<Event>, i: nat, j: nat, name: string, setup: bool)
    requires i < j <= |trace| && Changes(trace[i], name, setup)
    requires forall k {:trigger Undoes(trace[k], name, setup)} :: i < k < j ==> !Undoes(trace[k], name, setup)
    ensures name in Live(trace[..j]) <==> setup
    decreases j
  {
    assert trace[..j][..j - 1] == trace[..j - 1];
    if i + 1 < j {
      LiveUntil(trace, i, j - 1, name, setup);
      assert !Undoes(trace[j - 1], name, setup);
    }
  }

  /** Between two set-ups of a name it is torn down, and between two teardowns it is set up. */
  lemma Alternates(trace: seq<Event>, i: nat, j: nat, name: string, setup: bool)
    requires Paired(trace) && i < j < |trace| && Changes(trace[i], name, setup) && Changes(trace[j], name, setup)
    ensures exists k :: i < k < j && Undoes(trace[k], name, setup)
  {
    assert Fits(Live(trace[..j]), trace[j]);
    if forall k {:trigger Undoes(trace[k], name, setup)} :: i < k < j ==> !Undoes(trace[k], name, setup) {
      LiveUntil(trace, i, j, name, setup);
    }
  }

  ghost predicate Among(names: seq<string>, open: map<string, Channel>) {
    forall i {:trigger names[i]} :: 0 <= i < |names| ==> names[i] in open
  }

  /** These names, each once, are the names of exactly these channels. */
  ghost predicate Lists(names: seq<string>, open: map<string, Channel>) {
    && Among(names, open) && (forall n {:trigger n in open} :: n in open ==> n in names)
    && forall i, j :: 0 <= i < j < |names| ==> names[i] != names[j]
  }

  /** The teardown calls for these channels, in order. */
  function Teardowns(open: map<string, Channel>, names: seq<string>): (s: seq<Event>)
    requires Among(names, open)
    ensures |s| == |names|
  {
    seq(|names|, i requires 0 <= i < |names| => Teardown(names[i], open[names[i]].data))
  }

  /** Every channel is filed under its device. */
  ghost predicate Named(model: map<string, Channel>) {
    forall n {:trigger model[n]} :: n in model ==> model[n].device == n && model[n].kind in {1, 2, 3, 4}
  }

  /** The open channels are exactly the live transports. */
  ghost predicate Tracks(live: map<string, int>, model: map<string, Channel>) {
    && live.Keys == model.Keys
    && forall n {:trigger model[n]} :: n in model ==> live[n] == model[n].data
  }

  /** The count and the transport calls agree with the channels filed. */
  ghost predicate Agrees(openChannels: int, start: int, trace: seq<Event>, model: map<string, Channel>) {
    openChannels == start + |model| && Named(model) && Paired(trace) && Tracks(Live(trace), model)
  }

  lemma NothingOpen(start: int)
    ensures Agrees(start, start, [], map[])
  {
  }

  lemma CountOneMore(model: map<string, Channel>, c: Channel)
    requires c.device !in model
    ensures |model[c.device := c]| == |model| + 1
  {
    var more := model[c.device := c];
    assert more.Keys == model.Keys + {c.device};
    assert |more| == |more.Keys| && |model| == |model.Keys|;
  }

  lemma TracksOneMore(live: map<string, int>, model: map<string, Channel>, c: Channel)
    requires Named(model) && Tracks(live, model) && c.device !in model && c.kind in {1, 2, 3, 4}
    ensures c.device !in live && |model[c.device := c]| == |model| + 1
    ensures Named(model[c.device := c]) && Tracks(live[c.device := c.data], model[c.device := c])
  {
    CountOneMore(model, c);
    assert c.device !in live.Keys;
  }

  lemma Opened(n: int, start: int, trace: seq<Event>, model: map<string, Channel>, c: Channel)
    requires Agrees(n, start, trace, model) && c.device !in model && c.kind in {1, 2, 3, 4}
    ensures Agrees(n + 1, start, trace + [Setup(c.device, c.data), Flush(c.data)], model[c.device := c])
  {
    hide Paired, Live, Named, Tracks;
    TracksOneMore(Live(trace), model, c);
    PairedStep(trace, Setup(c.device, c.data));
    PairedStep(trace + [Setup(c.device, c.data)], Flush(c.data));
    assert trace + [Setup(c.device, c.data), Flush(c.data)] == trace + [Setup(c.device, c.data)] + [Flush(c.data)];
  }

  lemma Closed(n: int, start: int, trace: seq<Event>, model: map<string, Channel>, name: string)
    requires Agrees(n, start, trace, model) && name in model
    ensures Agrees(n - 1, start, trace + [Teardown(name, model[name].data)], model - {name})
  {
    hide Paired, Live;
    PairedStep(trace, Teardown(name, model[name].data));
    var m := model - {name};
    assert m.Keys == model.Keys - {name};
    assert |m| == |m.Keys|;
  }

  ghost predicate DistinctIds(model: map<string, Channel>) {
    forall m, n {:trigger model[m], model[n]} :: m in model && n in model && m != n ==> model[m].id != model[n].id
  }

  ghost predicate IdFree(model: map<string, Channel>, id: int) {
    forall n {:trigger model[n]} :: n in model ==> model[n].id != id
  }

  /** A new channel keeps the ids apart exactly when nobody has its id. */
  lemma OneMoreId(model: map<string, Channel>, c: Channel)
    requires c.device !in model
    ensures DistinctIds(model[c.device := c]) <==> DistinctIds(model) && IdFree(model, c.id)
  {
    var more := model[c.device := c];
    assert forall n :: n in model ==> more[n] == model[n];
    if DistinctIds(more) {
      forall n | n in model
        ensures model[n].id != c.id
      {
        assert more[n].id != more[c.device].id;
      }
      forall m, n | m in model && n in model && m != n
        ensures model[m].id != model[n].id
      {
        assert more[m].id != more[n].id;
      }
    }
  }

  /** What is left of the channels `open` when those called `names` have been closed, each once. */
  ghost predicate Remain(open: map<string, Channel>, names: seq<string>, model: map<string, Channel>) {
    && Among(names, open)
    && (forall n {:trigger n in model} :: n in model <==> n in open && n !in names)
    && (forall n {:trigger model[n]} :: n in model ==> n in open && model[n] == open[n])
    && forall i, j :: 0 <= i < j < |names| ==> names[i] != names[j]
  }

  lemma NoneClosed(open: map<string, Channel>)
    ensures Among([], open) && Remain(open, [], open) && Teardowns(open, []) == []
  {
  }

  lemma CloseOne(open: map<string, Channel>, names: seq<string>, model: map<string, Channel>, name: string)
    requires Remain(open, names, model) && name in model
    ensures Remain(open, names + [name], model - {name}) && Among(names, open) && Among(names + [name], open)
    ensures Teardowns(open, names + [name]) == Teardowns(open, names) + [Teardown(name, model[name].data)]
  {
    assert name in open && name !in names;
  }

  lemma AllClosed(open: map<string, Channel>, names: seq<string>, model: map<string, Channel>)
    requires Remain(open, names, model) && model == map[]
    ensures Lists(names, open)
  {
    forall n | n in open
      ensures n in names
    {
      assert n !in model;
    }
  }

  lemma FirstKey(n: Item<Channel>, c: seq<Item<Channel>>)
    ensures KeysOf([n] + c) == [n.key] + KeysOf(c)
  {
  }

  lemma NextName(keys: seq<string>, names: seq<string>, name: string, rest: seq<string>)
    requires keys == names + ([name] + rest)
    ensures keys == (names + [name]) + rest
  {
  }

  class ChannelManager {
    const channels: HashMap<Channel>
    var openChannels: int

    /** What open_channels held before the first open; channel_manager_init does not set it. */
    ghost const start: int
    ghost var trace: seq<Event>

    ghost predicate Valid()
      reads this, channels, channels.pool, channels.items
    {
      channels.Valid() && Agrees(openChannels, start, trace, channels.model)
    }

    /** channel_manager_init */
    constructor (hash: string -> nat, garbage: int)
      ensures Valid() && fresh(channels) && fresh(channels.pool) && fresh(channels.items)
      ensures channels.model == map[] && start == openChannels == garbage && trace == []
    {
      hide *;
      channels := new HashMap(hash);
      openChannels := garbage;
      start := garbage;
      trace := [];
      new;
      NothingOpen(garbage);
      ValidFrom();
    }

    lemma ValidMeans()
      requires Valid()
      ensures channels.Valid() && channels.Linked() && Agrees(openChannels, start, trace, channels.model)
    {
      hide Agrees;
    }

    lemma ValidFrom()
      requires channels.Valid() && Agrees(openChannels, start, trace, channels.model)
      ensures Valid()
    {
      hide HashMap<Channel>.Valid;
    }

    /**
     * channel_open; `memory` says whether calloc succeeds, `setup` what the transport's setup yields. The types that
     * open are UART (1), MSGQ (2), FIFO (3) and UNIX_BUS (4), between CHANNEL_TYPE_ERR and CHANNEL_TYPE_SENTINEL.
     */
    method Open(kind: int, device: Option<string>, speed: int, isServer: bool, memory: bool, setup: Option<int>)
      returns (r: Status)
      requires Valid()
      modifies this`openChannels, this`trace, channels, channels.pool, channels.items
      ensures Valid()
      ensures r == (if kind !in {1, 2, 3, 4} then UnknownType
                    else if device == None then OpenFailed
                    else if device.value in old(channels.model) then AlreadyOpen
                    else if !memory then OutOfMemory
                    else if setup == None then OpenFailed
                    else Success)
      ensures r != Success ==>
                channels.model == old(channels.model) && openChannels == old(openChannels) && trace == old(trace)
      ensures r == Success ==>
                && openChannels == old(openChannels) + 1
                && trace == old(trace) + [Setup(device.value, setup.value), Flush(setup.value)]
                && channels.model == old(channels.model)
                   [device.value := Channel(openChannels, speed, device.value, isServer, kind, setup.value)]
                && (DistinctIds(channels.model) <==>
                      old(DistinctIds(channels.model)) && IdFree(old(channels.model), old(openChannels) + 1))
      ensures channels.pool == old(channels.pool) || fresh(channels.pool)
      ensures old(channels.items) <= channels.items && fresh(channels.items - old(channels.items))
    {
      hide *;
      ValidMeans();
      if kind <= 0 || kind >= 5 {
        return UnknownType;
      }
      if device == None {
        return OpenFailed;
      }
      var present := channels.Get(device.value);
      if present != None {
        return AlreadyOpen;
      }
      if !memory {
        return OutOfMemory;
      }
      if setup == None {
        return OpenFailed;
      }
      var c := Channel(openChannels + 1, speed, device.value, isServer, kind, setup.value);
      Opened(openChannels, start, trace, channels.model, c);
      OneMoreId(channels.model, c);
      trace := trace + [Setup(c.device, c.data), Flush(c.data)];
      openChannels := openChannels + 1;
      var h;
      ghost var item;
      h, item := channels.Insert(c.device, c);
      ValidFrom();
      return Success;
    }

    /** channel_get: the id and the transport of an open channel. */
    method Get(device: string) returns (r: Status, id: int, data: int)
      requires Valid()
      ensures r == if device in channels.model then Success else NotOpen
      ensures r == Success ==>
                && id == channels.model[device].id && data == channels.model[device].data
                && device in Live(trace) && data == Live(trace)[device]
    {
      var c := channels.Get(device);
      if c == None {
        return NotOpen, 0, 0;
      }
      return Success, c.value.id, c.value.data;
    }

    /** channel_close */
    method Close(device: string) returns (r: Status, ghost p: nat, ghost k: nat)
      requires Valid()
      modifies this`openChannels, this`trace, channels, channels.pool, channels.items
      ensures Valid() && r == if device in old(channels.model) then Success else NotOpen
      ensures channels.pool == old(channels.pool) && channels.items <= old(channels.items)
      ensures channels.model == old(channels.model) - {device}
      ensures r == NotOpen ==>
                openChannels == old(openChannels) && trace == old(trace) && channels.table == old(channels.table)
      ensures r == Success ==>
                && openChannels == old(openChannels) - 1
                && trace == old(trace) + [Teardown(device, old(channels.model)[device].data)]
                && p < |old(channels.table)| && k < |old(channels.table)[p]|
                && old(channels.table)[p][k].key == device
                && channels.table == old(channels.table)[p := Without(old(channels.table)[p], k)]
    {
      hide *;
      ValidMeans();
      var c := channels.Get(device);
      if c == None {
        return NotOpen, 0, 0;
      }
      Closed(openChannels, start, trace, channels.model, device);
      trace := trace + [Teardown(device, c.value.data)];
      var gone;
      gone, p, k := channels.Delete(device);
      openChannels := openChannels - 1;
      ValidFrom();
      r := Success;
    }

    /** The body of the teardown loop: close the channel the iterator has just returned. */
    method CloseReturned(it: MapIterator<Channel>, device: string, ghost p: nat, ghost k: nat)
      requires Valid() && it.over == channels && it.pos == p + 1 && it.At(channels.table, k + 1)
      requires p < |channels.table| && k < |channels.table[p]| && channels.table[p][k].key == device
      requires Flat(channels.table) == [channels.table[p][k]] + it.Left(channels.table, k + 1)
      modifies this`openChannels, this`trace, channels, channels.pool, channels.items
      ensures Valid() && channels.pool == old(channels.pool) && channels.items <= old(channels.items)
      ensures device in old(channels.model) && channels.model == old(channels.model) - {device}
      ensures trace == old(trace) + [Teardown(device, old(channels.model)[device].data)]
      ensures it.At(channels.table, k) && |Flat(channels.table)| == |old(Flat(channels.table))| - 1
      ensures Flat(channels.table) == it.Left(channels.table, k)
      ensures old(KeysOf(Flat(channels.table))) == [device] + KeysOf(Flat(channels.table))
    {
      hide *;
      ghost var t := channels.table;
      ValidMeans();
      channels.EntryMeans(p, k);
      var r;
      ghost var q, l;
      r, q, l := Close(device);
      SamePlace(t, p, k, q, l);
      it.AfterDelete(t, k);
      LeftIsRest(it, t, k + 1);
      FirstDeleted(t, p, k);
      FirstKey(t[p][k], Flat(channels.table));
    }

    lemma LeftIsRest(it: MapIterator<Channel>, t: Table<Channel>, j: nat)
      requires it.At(t, j) && it.pos > 0
      ensures it.Left(t, j) == Rest(t, it.pos, j)
    {
    }

    /** The loop of channel_manager_teardown: every open channel is closed once, in the order of the table. */
    method TeardownAll() returns (ghost names: seq<string>)
      requires Valid()
      modifies this`openChannels, this`trace, channels, channels.pool, channels.items
      ensures Valid() && channels.model == map[] && openChannels == start
      ensures Among(names, old(channels.model)) && Lists(names, old(channels.model))
      ensures names == KeysOf(Flat(old(channels.table)))
      ensures trace == old(trace) + Teardowns(old(channels.model), names)
      ensures Live(trace) == map[]
      ensures channels.pool == old(channels.pool) && channels.items <= old(channels.items)
    {
      hide *;
      ghost var open, keys := channels.model, KeysOf(Flat(channels.table));
      names := [];
      var it := new MapIterator(channels);
      ghost var j := 0;
      NoneClosed(open);
      var more := true;
      while more
        invariant Valid() && it.over == channels && it.At(channels.table, j)
        invariant channels.pool == old(channels.pool) && channels.items <= old(channels.items)
        invariant it.Left(channels.table, j) == Flat(channels.table)
        invariant Among(names, open) && Remain(open, names, channels.model)
        invariant trace == old(trace) + Teardowns(open, names)
        invariant keys == names + KeysOf(Flat(channels.table))
        invariant !more ==> Flat(channels.table) == []
        decreases more, |Flat(channels.table)|
      {
        ValidMeans();
        var r;
        ghost var p, k;
        r, p, k := it.Next(j);
        if r == None {
          more := false;
          j := k;
        } else {
          EntryReturned(p, k);
          CloseOne(open, names, channels.model, r.value.0);
          CloseReturned(it, r.value.0, p, k);
          NextName(keys, names, r.value.0, KeysOf(Flat(channels.table)));
          names := names + [r.value.0];
          j := k;
        }
      }
      NothingLeft();
      AllClosed(open, names, channels.model);
    }

    lemma EntryReturned(p: nat, k: nat)
      requires Valid() && p < |channels.table| && k < |channels.table[p]|
      ensures channels.table[p][k].key in channels.model
    {
      channels.EntryMeans(p, k);
    }

    /** An empty table stands for no open channel. */
    lemma NothingLeft()
      requires Valid() && Flat(channels.table) == []
      ensures channels.model == map[] && openChannels == start && Live(trace) == map[]
    {
      hide HashMap<Channel>.Core, Flat;
      channels.CoreMeans();
      FlatTotal(channels.table);
    }
  }
}

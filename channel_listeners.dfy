/**
 * The channel registry of the client-manager server plugin: clients register
 * a listener on a named channel, deregister it, and broadcast a message to
 * every other listener of their channel.
 */
module ChannelListeners {
  import opened Base

  /**
   * A listener: the client's name, its channel and its broadcaster (the remote
   * object `channelMessage` is called on), compared as a value.
   */
  datatype BroadcastInfo = BroadcastInfo(name: Str, channelName: Str, broadcaster: nat)

  /** One `channelMessage(senderName, message)` call on a listener's broadcaster. */
  datatype Delivery = Delivery(to: BroadcastInfo, senderName: Str, message: Str)

  /** `list.remove(info)`: the list without its first element equal to `x`. */
  function RemoveFirst(s: seq<BroadcastInfo>, x: BroadcastInfo): (r: seq<BroadcastInfo>)
    ensures x !in s ==> r == s
    ensures x in s ==> |r| == |s| - 1
    ensures forall b :: b in r ==> b in s
  {
    if s == [] then []
    else
      assert s == [s[0]] + s[1..];
      if s[0] == x then s[1..] else [s[0]] + RemoveFirst(s[1..], x)
  }

  /** What is removed is the first occurrence: everything before it is kept in place, everything after shifts by one. */
  lemma {:induction false} RemoveFirstIsFirst(s: seq<BroadcastInfo>, x: BroadcastInfo, i: nat)
    requires i < |s| && s[i] == x && forall j :: 0 <= j < i ==> s[j] != x
    ensures RemoveFirst(s, x) == s[..i] + s[i + 1..]
    decreases i
  {
    if i == 0 {
      assert s[..0] + s[1..] == s[1..];
    } else {
      var t := s[1..];
      assert s[0] != x;
      forall j | 0 <= j < i - 1
        ensures t[j] != x
      {
        assert t[j] == s[j + 1];
      }
      RemoveFirstIsFirst(t, x, i - 1);
      calc {
        RemoveFirst(s, x);
        [s[0]] + RemoveFirst(t, x);
        [s[0]] + (t[..i - 1] + t[i..]);
        { assert s[..i] == [s[0]] + t[..i - 1]; assert s[i + 1..] == t[i..]; }
        s[..i] + s[i + 1..];
      }
    }
  }

  /** Removing what was just appended, when it was not there before, restores the list. */
  lemma {:induction false} RemoveFirstOfSnoc(s: seq<BroadcastInfo>, x: BroadcastInfo)
    requires x !in s
    ensures RemoveFirst(s + [x], x) == s
  {
    RemoveFirstIsFirst(s + [x], x, |s|);
    assert (s + [x])[..|s|] == s;
  }

  /** No channel maps to an empty list, and every listener sits under its own channel. */
  ghost predicate WellKept(m: map<Str, seq<BroadcastInfo>>) {
    forall ch :: ch in m ==> |m[ch]| > 0 && forall i :: 0 <= i < |m[ch]| ==> m[ch][i].channelName == ch
  }

  /** The registry after `registerChannelListener(info)`. */
  function Registered(m: map<Str, seq<BroadcastInfo>>, info: BroadcastInfo): map<Str, seq<BroadcastInfo>> {
    var ch := info.channelName;
    m[ch := (if ch in m then m[ch] else []) + [info]]
  }

  /** The registry after `deregisterChannelListener(info)`. */
  function Deregistered(m: map<Str, seq<BroadcastInfo>>, info: BroadcastInfo): map<Str, seq<BroadcastInfo>> {
    var ch := info.channelName;
    if ch !in m then m
    else
      var rest := RemoveFirst(m[ch], info);
      if rest == [] then m - {ch} else m[ch := rest]
  }

  /** The listeners a broadcast from `info` reaches: the others of its channel, in list order. */
  function Recipients(list: seq<BroadcastInfo>, info: BroadcastInfo): (r: seq<BroadcastInfo>)
    ensures info !in r
    ensures forall b :: b in r <==> b in list && b != info
    ensures |r| <= |list|
  {
    if list == [] then []
    else Recipients(list[..|list| - 1], info) + (if list[|list| - 1] != info then [list[|list| - 1]] else [])
  }

  /** Register and deregister keep the registry well kept. */
  lemma RegistryStaysWellKept(m: map<Str, seq<BroadcastInfo>>, info: BroadcastInfo)
    requires WellKept(m)
    ensures WellKept(Registered(m, info))
    ensures WellKept(Deregistered(m, info))
  {
    var ch := info.channelName;
    if ch in m {
      var rest := RemoveFirst(m[ch], info);
      forall i | 0 <= i < |rest|
        ensures rest[i].channelName == ch
      {
        assert rest[i] in rest;
        var j :| 0 <= j < |m[ch]| && m[ch][j] == rest[i];
      }
    }
  }

  /** Registering a listener that was not there and deregistering it again gives back the registry. */
  lemma DeregisterUndoesRegister(m: map<Str, seq<BroadcastInfo>>, info: BroadcastInfo)
    requires WellKept(m)
    requires info.channelName !in m || info !in m[info.channelName]
    ensures Deregistered(Registered(m, info), info) == m
  {
    var ch := info.channelName;
    var before := if ch in m then m[ch] else [];
    RemoveFirstOfSnoc(before, info);
    if ch !in m {
      assert Registered(m, info) - {ch} == m;
    }
  }

  /** The registry of `ClientManagerServer`. */
  class ChannelRegistry {
    var registeredClients: map<Str, seq<BroadcastInfo>>

    ghost predicate Valid()
      reads this
    {
      WellKept(registeredClients)
    }

    constructor ()
      ensures Valid() && registeredClients == map[]
    {
      registeredClients := map[];
    }

    /** `registerChannelListener`: the listener is appended to its channel's list, made when missing. */
    method RegisterChannelListener(info: BroadcastInfo)
      requires Valid()
      modifies this
      ensures Valid()
      ensures registeredClients == Registered(old(registeredClients), info)
    {
      var channel := info.channelName;
      var list: seq<BroadcastInfo>;
      if channel in registeredClients {
        list := registeredClients[channel];
      } else {
        list := [];
      }
      list := list + [info];
      RegistryStaysWellKept(registeredClients, info);
      registeredClients := registeredClients[channel := list];
    }

    /** `deregisterChannelListener`: the first equal listener is removed; an emptied channel is dropped. */
    method DeregisterChannelListener(info: BroadcastInfo)
      requires Valid()
      modifies this
      ensures Valid()
      ensures registeredClients == Deregistered(old(registeredClients), info)
    {
      var channel := info.channelName;
      RegistryStaysWellKept(registeredClients, info);
      if channel in registeredClients {
        var list := RemoveFirst(registeredClients[channel], info);
        if |list| == 0 {
          registeredClients := registeredClients - {channel};
        } else {
          registeredClients := registeredClients[channel := list];
        }
      }
    }

    /** `broadcastMessage`: one `channelMessage` call per other listener of the sender's channel, in list order. */
    method BroadcastMessage(info: BroadcastInfo, message: Str) returns (calls: seq<Delivery>)
      ensures calls == Deliveries(registeredClients, info, message)
    {
      calls := [];
      if info.channelName in registeredClients {
        var list := registeredClients[info.channelName];
        for i := 0 to |list|
          invariant calls == Announce(Recipients(list[..i], info), info, message)
        {
          assert list[..i + 1][..i] == list[..i];
          AnnounceAppend(Recipients(list[..i], info), if list[i] != info then [list[i]] else [], info, message);
          if list[i] != info {
            calls := calls + [Delivery(list[i], info.name, message)];
          }
        }
        assert list[..|list|] == list;
      }
    }
  }

  function Announce(to: seq<BroadcastInfo>, info: BroadcastInfo, message: Str): (d: seq<Delivery>)
    ensures |d| == |to|
    ensures forall k :: 0 <= k < |to| ==> d[k] == Delivery(to[k], info.name, message)
  {
    seq(|to|, k requires 0 <= k < |to| => Delivery(to[k], info.name, message))
  }

  lemma AnnounceAppend(a: seq<BroadcastInfo>, b: seq<BroadcastInfo>, info: BroadcastInfo, message: Str)
    ensures Announce(a + b, info, message) == Announce(a, info, message) + Announce(b, info, message)
  {
  }

  /** The calls a broadcast makes. */
  function Deliveries(m: map<Str, seq<BroadcastInfo>>, info: BroadcastInfo, message: Str): seq<Delivery> {
    if info.channelName in m then Announce(Recipients(m[info.channelName], info), info, message) else []
  }

  /**
   * A broadcast reaches exactly the listeners of the sender's channel that are
   * not the sender, each with the sender's name and the message, and never the
   * sender itself.
   */
  lemma BroadcastReachesOthers(m: map<Str, seq<BroadcastInfo>>, info: BroadcastInfo, message: Str)
    requires WellKept(m)
    ensures forall d :: d in Deliveries(m, info, message) ==>
              d.to != info && d.to.channelName == info.channelName && d.senderName == info.name && d.message == message
    ensures forall b :: b in (if info.channelName in m then m[info.channelName] else []) && b != info ==>
              Delivery(b, info.name, message) in Deliveries(m, info, message)
  {
    var ch := info.channelName;
    if ch in m {
      var r := Recipients(m[ch], info);
      var d := Deliveries(m, info, message);
      forall e | e in d
        ensures e.to != info && e.to.channelName == ch && e.senderName == info.name && e.message == message
      {
        var k :| 0 <= k < |d| && d[k] == e;
        assert r[k] in r;
        assert r[k] in m[ch];
        var j :| 0 <= j < |m[ch]| && m[ch][j] == r[k];
      }
      forall b | b in m[ch] && b != info
        ensures Delivery(b, info.name, message) in d
      {
        var k :| 0 <= k < |r| && r[k] == b;
        assert d[k] == Delivery(b, info.name, message);
      }
    }
  }

  /** Once a listener is registered, a broadcast from another listener of its channel reaches it. */
  lemma RegisteredListenerHears(m: map<Str, seq<BroadcastInfo>>, listener: BroadcastInfo, sender: BroadcastInfo, message: Str)
    requires WellKept(m)
    requires sender.channelName == listener.channelName && sender != listener
    ensures Delivery(listener, sender.name, message) in Deliveries(Registered(m, listener), sender, message)
  {
    RegistryStaysWellKept(m, listener);
    BroadcastReachesOthers(Registered(m, listener), sender, message);
  }
}

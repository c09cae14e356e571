/**
 * ARDOUR::Bundle's channel table (libs/ardour/bundle.cc): a sequence of
 * channels, each a name and a list of full port names, edited in place.
 * The mutex that guards the table, the PortsChanged, ConfigurationChanged and
 * NameChanged signals, and the engine calls of connect/disconnect are not
 * modelled.
 */
module Ardour {

  /** Bundle::Channel, declared in bundle.h (not part of this model): a name
      and the ports associated with the channel. Equality is value equality,
      as operator== on the channel vector uses it. */
  datatype Channel = Channel(name: string, ports: seq<string>)

  /** ARDOUR::DataType is not part of this model; a bundle only stores and
      copies it. */
  datatype DataType = DataType(symbol: string)

  /** A full port name carries its client prefix, separated by ':'; the
      asserts of add_port_to_channel and set_port (bundle.cc:66, 121) demand it. */
  predicate IsFullPortName(p: string)
  {
    ':' in p
  }

  /** std::find over a port list (bundle.cc:90, 150): the first index holding
      p, or the length of the list when p is absent. */
  method FindPort(ports: seq<string>, p: string) returns (i: nat)
    ensures i <= |ports|
    ensures i < |ports| ==> ports[i] == p
    ensures forall k :: 0 <= k < i ==> ports[k] != p
  {
    i := 0;
    while i < |ports| && ports[i] != p
      invariant i <= |ports|
      invariant forall k :: 0 <= k < i ==> ports[k] != p
    {
      i := i + 1;
    }
  }

  /** A port list with the first occurrence of p erased: unchanged when p is
      absent, and otherwise one element shorter. */
  function RemoveFirst(ports: seq<string>, p: string): (r: seq<string>)
    ensures p !in ports ==> r == ports
    ensures p in ports ==> |r| == |ports| - 1
  {
    if ports == [] then []
    else if ports[0] == p then ports[1..]
    else
      assert p in ports ==> p in ports[1..];
      [ports[0]] + RemoveFirst(ports[1..], p)
  }

  /** Erasing the first occurrence removes exactly one copy of p, when there
      is one, and keeps every other port with its multiplicity. */
  lemma {:induction false} RemoveFirstMultiset(ports: seq<string>, p: string)
    ensures multiset(RemoveFirst(ports, p)) == multiset(ports) - multiset{p}
  {
    if ports != [] {
      assert ports == [ports[0]] + ports[1..];
      if ports[0] != p {
        RemoveFirstMultiset(ports[1..], p);
      }
    }
  }

  /** Erasing the first occurrence skips a prefix that does not hold p. */
  lemma {:induction false} RemoveFirstAfterPrefix(a: seq<string>, b: seq<string>, p: string)
    requires p !in a
    ensures RemoveFirst(a + b, p) == a + RemoveFirst(b, p)
  {
    if a == [] {
      assert a + b == b;
    } else {
      assert (a + b)[0] == a[0];
      assert (a + b)[1..] == a[1..] + b;
      RemoveFirstAfterPrefix(a[1..], b, p);
      assert [a[0]] + a[1..] == a;
    }
  }

  /** Erasing at the index std::find returns is RemoveFirst. */
  lemma RemoveFirstAt(ports: seq<string>, p: string, i: nat)
    requires i < |ports| && ports[i] == p
    requires p !in ports[..i]
    ensures RemoveFirst(ports, p) == ports[..i] + ports[i + 1..]
  {
    var rest := ports[i..];
    assert ports == ports[..i] + rest;
    RemoveFirstAfterPrefix(ports[..i], rest, p);
    assert rest[0] == p && rest[1..] == ports[i + 1..];
  }

  /** Removing a port right after appending it: the append is undone when
      the port was absent, and otherwise the earlier occurrence is the one
      erased, so the new copy moves to the end. */
  lemma {:induction false} AddThenRemovePort(ports: seq<string>, p: string)
    ensures p !in ports ==> RemoveFirst(ports + [p], p) == ports
    ensures p in ports ==> RemoveFirst(ports + [p], p) == RemoveFirst(ports, p) + [p]
  {
    if ports != [] {
      assert (ports + [p])[0] == ports[0];
      assert (ports + [p])[1..] == ports[1..] + [p];
      if ports[0] != p {
        AddThenRemovePort(ports[1..], p);
        assert p in ports ==> p in ports[1..];
      }
    }
  }

  class Bundle {
    /** _channel: the channel table. */
    var channels: seq<Channel>
    /** _name, _type and _ports_are_inputs. */
    var name: string
    var dataType: DataType
    var portsAreInputs: bool

    /** Every port in the table is a full port name. */
    ghost predicate Valid()
      reads this
    {
      forall c, p :: 0 <= c < |channels| && p in channels[c].ports ==> IsFullPortName(p)
    }

    /** Bundle's name constructor (declared in bundle.h, not part of this
        model): an empty channel table. */
    constructor (name: string, dataType: DataType, portsAreInputs: bool)
      ensures Valid() && channels == []
      ensures this.name == name && this.dataType == dataType
      ensures this.portsAreInputs == portsAreInputs
    {
      channels := [];
      this.name := name;
      this.dataType := dataType;
      this.portsAreInputs := portsAreInputs;
    }

    /** The copy constructor (bundle.cc:33-40): the same channels, name, type
        and direction, so the copy compares equal to the original. */
    constructor Copy(other: Bundle)
      ensures channels == other.channels && name == other.name
      ensures dataType == other.dataType && portsAreInputs == other.portsAreInputs
      ensures Equals(other)
      ensures other.Valid() ==> Valid()
    {
      channels := other.channels;
      name := other.name;
      dataType := other.dataType;
      portsAreInputs := other.portsAreInputs;
    }

    /** nchannels() (bundle.cc:42-47). */
    function NChannels(): (n: nat)
      reads this
      ensures n == |channels|
    {
      |channels|
    }

    /** channel_ports(c) (bundle.cc:49-56). */
    function ChannelPorts(c: nat): (ports: seq<string>)
      reads this
      requires c < |channels|
      ensures ports == channels[c].ports
    {
      channels[c].ports
    }

    /** channel_name(ch) (bundle.cc:203-210). */
    function ChannelName(ch: nat): (n: string)
      reads this
      requires ch < |channels|
      ensures n == channels[ch].name
    {
      channels[ch].name
    }

    /** operator== (bundle.cc:106-110): compares the channel tables only, so
        name, type and direction do not take part. */
    function Equals(other: Bundle): (r: bool)
      reads this, other
      ensures r <==> channels == other.channels
    {
      other.channels == channels
    }

    /** add_port_to_channel(ch, portname) (bundle.cc:62-74): appends the port
        to channel ch; every other channel, and every name, stays as it was. */
    method AddPortToChannel(ch: nat, portname: string)
      requires Valid() && ch < |channels| && IsFullPortName(portname)
      modifies this`channels
      ensures Valid()
      ensures channels ==
        old(channels)[ch := Channel(old(channels)[ch].name, old(channels)[ch].ports + [portname])]
    {
      channels := channels[ch := channels[ch].(ports := channels[ch].ports + [portname])];
    }

    /** remove_port_from_channel(ch, portname) (bundle.cc:80-101): erases the
        first occurrence of the port from channel ch, if there is one. */
    method RemovePortFromChannel(ch: nat, portname: string)
      requires Valid() && ch < |channels|
      modifies this`channels
      ensures Valid()
      ensures channels ==
        old(channels)[ch :=
          old(channels)[ch].(ports := RemoveFirst(old(channels)[ch].ports, portname))]
    {
      var pl := channels[ch].ports;
      var i := FindPort(pl, portname);
      if i < |pl| {
        RemoveFirstAt(pl, portname, i);
        channels := channels[ch := channels[ch].(ports := pl[..i] + pl[i + 1..])];
      } else {
        assert portname !in pl;
      }
    }

    /** set_port(ch, portname) (bundle.cc:117-130): channel ch's ports become
        exactly [portname]; every other channel stays as it was. */
    method SetPort(ch: nat, portname: string)
      requires Valid() && ch < |channels| && IsFullPortName(portname)
      modifies this`channels
      ensures Valid()
      ensures channels == old(channels)[ch := old(channels)[ch].(ports := [portname])]
    {
      var c := channels[ch].(ports := []);
      c := c.(ports := c.ports + [portname]);
      assert c.ports == [portname];
      channels := channels[ch := c];
    }

    /** add_channel(n) (bundle.cc:133-142): appends one channel, named n and
        with no ports, after the existing ones. */
    method AddChannel(n: string)
      requires Valid()
      modifies this`channels
      ensures Valid()
      ensures channels == old(channels) + [Channel(n, [])]
    {
      channels := channels + [Channel(n, [])];
    }

    /** port_attached_to_channel(ch, portname) (bundle.cc:144-151). */
    method PortAttachedToChannel(ch: nat, portname: string) returns (b: bool)
      requires ch < |channels|
      ensures b <==> portname in channels[ch].ports
    {
      var i := FindPort(channels[ch].ports, portname);
      b := i < |channels[ch].ports|;
    }

    /** remove_channel(ch) (bundle.cc:153-160): erases channel ch and keeps
        the others in order. */
    method RemoveChannel(ch: nat)
      requires Valid() && ch < |channels|
      modifies this`channels
      ensures Valid()
      ensures channels == old(channels)[..ch] + old(channels)[ch + 1..]
    {
      channels := channels[..ch] + channels[ch + 1..];
    }

    /** remove_channels() (bundle.cc:162-168). */
    method RemoveChannels()
      modifies this`channels
      ensures Valid() && channels == []
    {
      channels := [];
    }

    /** uses_port(p) (bundle.cc:170-184): some channel has p among its ports. */
    method UsesPort(p: string) returns (b: bool)
      ensures b <==> exists c :: 0 <= c < |channels| && p in channels[c].ports
    {
      var i := 0;
      while i < |channels|
        invariant 0 <= i <= |channels|
        invariant forall c :: 0 <= c < i ==> p !in channels[c].ports
      {
        var ports := channels[i].ports;
        var j := 0;
        while j < |ports|
          invariant 0 <= j <= |ports|
          invariant forall k :: 0 <= k < j ==> ports[k] != p
        {
          if ports[j] == p {
            return true;
          }
          j := j + 1;
        }
        i := i + 1;
      }
      return false;
    }

    /** offers_port_alone(p) (bundle.cc:189-201): some channel has p as its
        only port. */
    method OffersPortAlone(p: string) returns (b: bool)
      ensures b <==> exists c :: 0 <= c < |channels| && channels[c].ports == [p]
    {
      var i := 0;
      while i < |channels|
        invariant 0 <= i <= |channels|
        invariant forall c :: 0 <= c < i ==> channels[c].ports != [p]
      {
        if |channels[i].ports| == 1 && channels[i].ports[0] == p {
          return true;
        }
        i := i + 1;
      }
      return false;
    }

    /** set_channel_name(ch, n) (bundle.cc:212-223): renames channel ch and
        nothing else. */
    method SetChannelName(ch: nat, n: string)
      requires Valid() && ch < |channels|
      modifies this`channels
      ensures Valid()
      ensures channels == old(channels)[ch := old(channels)[ch].(name := n)]
    {
      channels := channels[ch := channels[ch].(name := n)];
    }

    /** add_channels_from_bundle(other) (bundle.cc:229-246): appends one channel
        per channel of other, in order, named "<other's name> <channel name>"
        and with that channel's ports in order; the existing channels stay. */
    method AddChannelsFromBundle(other: Bundle)
      requires other != this && Valid() && other.Valid()
      modifies this`channels
      ensures Valid()
      ensures |channels| == |old(channels)| + |other.channels|
      ensures channels[..|old(channels)|] == old(channels)
      ensures forall i :: 0 <= i < |other.channels| ==>
        channels[|old(channels)| + i] ==
          Channel(other.name + " " + other.channels[i].name, other.channels[i].ports)
    {
      var ch := NChannels();
      var i := 0;
      while i < other.NChannels()
        invariant 0 <= i <= |other.channels|
        invariant Valid()
        invariant |channels| == ch + i
        invariant channels[..ch] == old(channels)
        invariant forall k :: 0 <= k < i ==>
          channels[ch + k] ==
            Channel(other.name + " " + other.channels[k].name, other.channels[k].ports)
      {
        AddChannel(other.name + " " + other.ChannelName(i));
        var pl := other.ChannelPorts(i);
        var j := 0;
        while j < |pl|
          invariant 0 <= j <= |pl|
          invariant Valid()
          invariant |channels| == ch + i + 1
          invariant channels[..ch] == old(channels)
          invariant forall k :: 0 <= k < i ==>
            channels[ch + k] ==
              Channel(other.name + " " + other.channels[k].name, other.channels[k].ports)
          invariant channels[ch + i] == Channel(other.name + " " + other.channels[i].name, pl[..j])
        {
          AddPortToChannel(ch + i, pl[j]);
          j := j + 1;
        }
        assert pl[..j] == pl;
        i := i + 1;
      }
    }
  }
}

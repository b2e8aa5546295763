/** The Bluetooth link as the transfer engine sees it (BluetoothManager.send_data).
    A write succeeds while the link is connected and the output stream still accepts
    writes; the first write the stream refuses disconnects the link, so every later
    write fails too. `healthyWrites` is how many more writes the stream accepts:
    every pattern of stream failures during one transfer is one value of it. */
module Transport {
  import opened Wire

  datatype LinkState = LinkState(connected: bool, healthyWrites: nat, log: seq<seq<byte>>)

  /** The link after one send_data call. */
  function AfterSend(s: LinkState, data: seq<byte>): (r: LinkState)
    ensures r.connected == (s.connected && s.healthyWrites > 0)
    ensures r.log == if r.connected then s.log + [data] else s.log
  {
    if !s.connected then s
    else if s.healthyWrites == 0 then s.(connected := false)
    else LinkState(true, s.healthyWrites - 1, s.log + [data])
  }

  /** The link after one send_data call per write, in order, whatever each returns. */
  function AfterSends(s: LinkState, writes: seq<seq<byte>>): LinkState
    decreases |writes|
  {
    if writes == [] then s
    else AfterSend(AfterSends(s, writes[..|writes| - 1]), writes[|writes| - 1])
  }

  /** A disconnected link ignores every write. */
  lemma {:induction false} AfterSendsDisconnected(s: LinkState, writes: seq<seq<byte>>)
    requires !s.connected
    ensures AfterSends(s, writes) == s
  {
    if writes != [] {
      AfterSendsDisconnected(s, writes[..|writes| - 1]);
    }
  }

  lemma {:induction false} AfterSendsConcat(s: LinkState, a: seq<seq<byte>>, b: seq<seq<byte>>)
    ensures AfterSends(s, a + b) == AfterSends(AfterSends(s, a), b)
    decreases |b|
  {
    if b == [] {
      assert a + b == a;
    } else {
      var init := b[..|b| - 1];
      assert (a + b)[..|a + b| - 1] == a + init;
      AfterSendsConcat(s, a, init);
    }
  }

  /** Once a write has failed, the writes after it change nothing. */
  lemma AfterSendsStops(s: LinkState, done: seq<seq<byte>>, more: seq<seq<byte>>)
    requires !AfterSends(s, done).connected
    ensures AfterSends(s, done + more) == AfterSends(s, done)
  {
    AfterSendsConcat(s, done, more);
    AfterSendsDisconnected(AfterSends(s, done), more);
  }

  /** A connected link after `writes`, in closed form: the first healthyWrites writes are
      delivered, in order, and the link stays connected exactly when every write got
      through. */
  function Delivered(s: LinkState, writes: seq<seq<byte>>): LinkState
  {
    var k := if s.healthyWrites < |writes| then s.healthyWrites else |writes|;
    LinkState(s.healthyWrites >= |writes|, s.healthyWrites - k, s.log + writes[..k])
  }

  lemma {:induction false} AfterSendsDelivers(s: LinkState, writes: seq<seq<byte>>)
    requires s.connected
    ensures AfterSends(s, writes) == Delivered(s, writes)
    decreases |writes|
  {
    if writes == [] {
      assert s.log + writes[..0] == s.log;
    } else {
      var init := writes[..|writes| - 1];
      AfterSendsDelivers(s, init);
      if s.healthyWrites >= |writes| {
        assert init + [writes[|writes| - 1]] == writes;
      } else {
        assert init[..s.healthyWrites] == writes[..s.healthyWrites];
      }
    }
  }

  /** One more send_data call moves the closed form on by one write. */
  lemma DeliveredAppend(s: LinkState, writes: seq<seq<byte>>, data: seq<byte>)
    ensures AfterSend(Delivered(s, writes), data) == Delivered(s, writes + [data])
  {
    var w := writes + [data];
    if s.healthyWrites > |writes| {
      assert w[..|w|] == writes[..|writes|] + [data];
    } else {
      assert w[..s.healthyWrites] == writes[..s.healthyWrites];
    }
  }

  /** The next write gets through exactly when fewer writes than healthyWrites came before. */
  lemma AfterSendsAccepts(s: LinkState, writes: seq<seq<byte>>)
    requires s.connected
    ensures (AfterSends(s, writes).connected && AfterSends(s, writes).healthyWrites > 0) == (s.healthyWrites > |writes|)
  {
    AfterSendsDelivers(s, writes);
  }

  class Link {
    var connected: bool
    var healthyWrites: nat
    var log: seq<seq<byte>>

    function State(): LinkState
      reads this
    {
      LinkState(connected, healthyWrites, log)
    }

    constructor (connected: bool, healthyWrites: nat)
      ensures State() == LinkState(connected, healthyWrites, [])
    {
      this.connected := connected;
      this.healthyWrites := healthyWrites;
      log := [];
    }

    /** send_data: one write of `data` to the output stream, reporting whether it got through. */
    method Send(data: seq<byte>) returns (ok: bool)
      modifies this
      ensures ok == (old(connected) && old(healthyWrites) > 0)
      ensures State() == AfterSend(old(State()), data)
    {
      if !connected {
        return false;
      }
      if healthyWrites == 0 {
        connected := false;
        return false;
      }
      healthyWrites := healthyWrites - 1;
      log := log + [data];
      return true;
    }
  }
}

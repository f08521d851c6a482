/**
 ARP over whole runs: what a node's table and the packets held in it keep through any sequence of
 outgoing packets and incoming ARP messages, and what all tables of a network keep when frames are
 lost, duplicated and reordered at will.
 */
module ArpRuns {
  import opened Bytes
  import opened Sequences
  import opened Wire
  import opened Nodes
  import opened Arp

  // ---------------------------------------------------------------- one node

  /** `Post` is a packet that `ip_postroute` has routed to a next hop; `Message` is an ARP message. */
  datatype Event = Post(target: u32, p: Packet) | Message(intf: nat, body: bytes)

  /** A packet that was let go: its next hop and the MAC address it was sent to. */
  datatype Gone = Gone(ip: u32, p: Packet, mac: Mac)

  /** A node's table with the packets it was given so far, each with its next hop, and those it let go. */
  datatype History = History(table: seq<Entry>, submitted: seq<(u32, Packet)>, left: seq<Gone>)

  function Apply(cfg: Config, table: seq<Entry>, e: Event): Outcome {
    match e
    case Post(target, p) => Postroute(table, target, p)
    case Message(intf, p) => Input(cfg, table, intf, p).0
  }

  /** The address whose entry an event is about. */
  function Subject(e: Event): u32 {
    match e
    case Post(target, _) => target
    case Message(_, p) => if |p| < 28 then 0 else SenderProto(p)
  }

  function Departures(ip: u32, sent: seq<Output>): seq<Gone> {
    if sent == [] then []
    else (if sent[0].Data? then [Gone(ip, sent[0].p, sent[0].mac)] else []) + Departures(ip, sent[1..])
  }

  function Step(cfg: Config, h: History, e: Event): History {
    var o := Apply(cfg, h.table, e);
    History(o.table,
            h.submitted + (if e.Post? then [(e.target, e.p)] else []),
            h.left + Departures(Subject(e), o.sent))
  }

  function Run(cfg: Config, events: seq<Event>): History {
    if events == [] then History([], [], [])
    else Step(cfg, Run(cfg, events[..|events| - 1]), events[|events| - 1])
  }

  /** The packets of a log with next hop `ip`, in order. */
  function To(log: seq<(u32, Packet)>, ip: u32): seq<Packet> {
    if log == [] then []
    else To(log[..|log| - 1], ip) + (if log[|log| - 1].0 == ip then [log[|log| - 1].1] else [])
  }

  lemma {:induction false} ToAppend(log: seq<(u32, Packet)>, more: seq<(u32, Packet)>, ip: u32)
    ensures To(log + more, ip) == To(log, ip) + To(more, ip)
  {
    if more == [] {
      assert log + more == log;
    } else {
      var n := |more| - 1;
      assert (log + more)[..|log| + n] == log + more[..n];
      ToAppend(log, more[..n], ip);
    }
  }

  function Plain(left: seq<Gone>): seq<(u32, Packet)> {
    seq(|left|, i requires 0 <= i < |left| => (left[i].ip, left[i].p))
  }

  /** The packets with next hop `ip` that were let go, in order. */
  function LeftTo(left: seq<Gone>, ip: u32): seq<Packet> {
    To(Plain(left), ip)
  }

  lemma LeftAppend(left: seq<Gone>, more: seq<Gone>, ip: u32)
    ensures LeftTo(left + more, ip) == LeftTo(left, ip) + LeftTo(more, ip)
  {
    assert Plain(left + more) == Plain(left) + Plain(more);
    ToAppend(Plain(left), Plain(more), ip);
  }

  lemma DeparturesOfOne(ip: u32, o: Output)
    ensures Departures(ip, [o]) == if o.Data? then [Gone(ip, o.p, o.mac)] else []
  {
    assert [o][1..] == [];
  }

  lemma ToOne(target: u32, p: Packet, ip: u32)
    ensures To([(target, p)], ip) == if target == ip then [p] else []
  {
    assert [(target, p)][..0] == [];
  }

  lemma LeftOne(target: u32, p: Packet, mac: Mac, ip: u32)
    ensures LeftTo([Gone(target, p, mac)], ip) == if target == ip then [p] else []
  {
    assert Plain([Gone(target, p, mac)]) == [(target, p)];
    ToOne(target, p, ip);
  }

  /** Data sent one by one leaves one by one. */
  lemma {:induction false} DeparturesOfData(ip: u32, ps: seq<Packet>, mac: Mac)
    ensures Departures(ip, DataTo(ps, mac)) == seq(|ps|, i requires 0 <= i < |ps| => Gone(ip, ps[i], mac))
  {
    if ps != [] {
      DeparturesOfData(ip, ps[1..], mac);
      assert DataTo(ps, mac)[1..] == DataTo(ps[1..], mac);
    }
  }

  lemma {:induction false} ToConstant(log: seq<(u32, Packet)>, ip: u32, other: u32)
    requires forall i :: 0 <= i < |log| ==> log[i].0 == ip
    ensures To(log, other) == if other == ip then seq(|log|, i requires 0 <= i < |log| => log[i].1) else []
  {
    if log != [] {
      ToConstant(log[..|log| - 1], ip, other);
    }
  }

  lemma DeparturesLeft(ip: u32, ps: seq<Packet>, mac: Mac, other: u32)
    ensures LeftTo(Departures(ip, DataTo(ps, mac)), other) == if other == ip then ps else []
  {
    DeparturesOfData(ip, ps, mac);
    var d := Departures(ip, DataTo(ps, mac));
    ToConstant(Plain(d), ip, other);
    assert seq(|ps|, i requires 0 <= i < |ps| => Plain(d)[i].1) == ps;
  }

  predicate UniqueIps(table: seq<Entry>) {
    forall i, j :: 0 <= i < j < |table| ==> table[i].ip != table[j].ip
  }

  predicate ResolvedHoldNothing(table: seq<Entry>) {
    forall i :: 0 <= i < |table| && table[i].resolved ==> table[i].pending == []
  }

  /** The packets held for `ip`, newest first. */
  function Held(table: seq<Entry>, ip: u32): seq<Packet> {
    var i := Find(table, ip);
    if i < |table| then table[i].pending else []
  }

  predicate Resolved(table: seq<Entry>, ip: u32) {
    var i := Find(table, ip);
    i < |table| && table[i].resolved
  }

  /** `n` packets, newest first, and after them the others in the order they came. */
  predicate LeftAfter(left: seq<Packet>, submitted: seq<Packet>, n: nat) {
    n <= |submitted| && left == Reverse(submitted[..n]) + submitted[n..]
  }

  /**
   The fate of the packets for one next hop, `n` of which came before the first reply for it.  Until it
   resolves they are all held, newest first, and none has left.  Afterwards none is held and all have
   left exactly once: those `n` newest first, the later ones in order.
   */
  predicate Accounted(h: History, ip: u32, n: nat) {
    if Resolved(h.table, ip) then
      && Held(h.table, ip) == []
      && LeftAfter(LeftTo(h.left, ip), To(h.submitted, ip), n)
    else
      && Held(h.table, ip) == Reverse(To(h.submitted, ip))
      && LeftTo(h.left, ip) == []
  }

  lemma FindAfterUpdate(table: seq<Entry>, i: nat, e: Entry, ip: u32)
    requires i < |table| && e.ip == table[i].ip
    ensures Find(table[i := e], ip) == Find(table, ip)
  {
    FindUnique(table[i := e], ip, Find(table, ip));
  }

  lemma FindAfterAdd(table: seq<Entry>, e: Entry, ip: u32)
    ensures Find([e] + table, ip) == if e.ip == ip then 0 else 1 + Find(table, ip)
  {
    assert ([e] + table)[1..] == table;
  }

  lemma EnsuredKeeps(table: seq<Entry>, target: u32, intf: nat, ip: u32)
    ensures var t := Ensured(table, target, intf);
            Held(t, ip) == Held(table, ip) && (Resolved(t, ip) <==> Resolved(table, ip))
  {
    hide Find;
    FindAfterAdd(table, Entry(target, NO_MAC, intf, false, []), ip);
  }

  /** What a step did to the two logs and to the entry for `ip` decides its account. */
  lemma SameAccount(h: History, h': History, ip: u32, n: nat)
    requires Accounted(h, ip, n)
    requires To(h'.submitted, ip) == To(h.submitted, ip) && LeftTo(h'.left, ip) == LeftTo(h.left, ip)
    requires Held(h'.table, ip) == Held(h.table, ip) && (Resolved(h'.table, ip) <==> Resolved(h.table, ip))
    ensures Accounted(h', ip, n)
  {
  }

  /** A packet for a resolved next hop leaves at once. */
  lemma SentAtOnce(h: History, h': History, ip: u32, p: Packet, n: nat)
    requires Accounted(h, ip, n) && Resolved(h.table, ip)
    requires Resolved(h'.table, ip) && Held(h'.table, ip) == Held(h.table, ip)
    requires To(h'.submitted, ip) == To(h.submitted, ip) + [p] && LeftTo(h'.left, ip) == LeftTo(h.left, ip) + [p]
    ensures Accounted(h', ip, n)
  {
    var s := To(h.submitted, ip);
    assert (s + [p])[..n] == s[..n] && (s + [p])[n..] == s[n..] + [p];
  }

  /** A packet for an unresolved next hop joins the held ones at the front. */
  lemma HeldBack(h: History, h': History, ip: u32, p: Packet, n: nat)
    requires Accounted(h, ip, n) && !Resolved(h.table, ip)
    requires !Resolved(h'.table, ip) && Held(h'.table, ip) == [p] + Held(h.table, ip)
    requires To(h'.submitted, ip) == To(h.submitted, ip) + [p] && LeftTo(h'.left, ip) == LeftTo(h.left, ip)
    ensures Accounted(h', ip, n)
  {
    ReverseConcat(To(h.submitted, ip), [p]);
    assert Reverse([p]) == [p];
  }

  /** A reply lets all held packets go; after the first there are none. */
  lemma Released(h: History, h': History, ip: u32, n: nat)
    requires Accounted(h, ip, n) && Resolved(h'.table, ip) && Held(h'.table, ip) == []
    requires !Resolved(h.table, ip) ==> n == |To(h.submitted, ip)|
    requires To(h'.submitted, ip) == To(h.submitted, ip)
    requires LeftTo(h'.left, ip) == LeftTo(h.left, ip) + Held(h.table, ip)
    ensures Accounted(h', ip, n)
  {
    hide To, LeftTo, Held, Resolved, Reverse;
    var s := To(h.submitted, ip);
    assert s[..|s|] == s && s[|s|..] == [];
    if Resolved(h.table, ip) {
      assert LeftTo(h.left, ip) + [] == LeftTo(h.left, ip);
    } else {
      assert [] + Held(h.table, ip) == Held(h.table, ip);
    }
  }

  lemma PostrouteAccounted(cfg: Config, h: History, e: Event, ip: u32, n: nat)
    requires e.Post? && Accounted(h, ip, n)
    ensures Accounted(Step(cfg, h, e), ip, n)
  {
    hide Accounted, To, LeftTo, Departures;
    var target, p := e.target, e.p;
    var t := Ensured(h.table, target, p.intf);
    var i := Find(t, target);
    var h' := Step(cfg, h, e);
    EnsuredKeeps(h.table, target, p.intf, ip);
    ToAppend(h.submitted, [(target, p)], ip);
    ToOne(target, p, ip);
    ToOne(target, p, target);
    if t[i].resolved {
      DeparturesOfOne(target, Data(p, t[i].mac));
      LeftAppend(h.left, [Gone(target, p, t[i].mac)], ip);
      LeftOne(target, p, t[i].mac, ip);
      if target == ip {
        SentAtOnce(h, h', ip, p, n);
      } else {
        SameAccount(h, h', ip, n);
      }
    } else {
      DeparturesOfOne(target, Request(p.intf, target));
      assert h'.left == h.left;
      FindAfterUpdate(t, i, t[i].(pending := [p] + t[i].pending), ip);
      if target == ip {
        HeldBack(h, h', ip, p, n);
      } else {
        SameAccount(h, h', ip, n);
      }
    }
  }

  /** A message either updates the entry of its sender or changes nothing and sends no packet. */
  lemma MessageCases(cfg: Config, table: seq<Entry>, e: Event)
    requires e.Message?
    ensures var o := Apply(cfg, table, e);
            || (|e.body| >= 28 && o == UpdateFromReply(table, SenderProto(e.body), SenderHw(e.body)))
            || (o.table == table && Departures(Subject(e), o.sent) == [])
  {
    var o := Apply(cfg, table, e);
    if |o.sent| == 1 {
      DeparturesOfOne(Subject(e), o.sent[0]);
      assert o.sent == [o.sent[0]];
    }
  }

  lemma ReplyAccounted(cfg: Config, h: History, e: Event, ip: u32, n: nat)
    requires e.Message? && Accounted(h, ip, n)
    requires !Resolved(h.table, ip) && Resolved(Step(cfg, h, e).table, ip) ==> n == |To(h.submitted, ip)|
    ensures Accounted(Step(cfg, h, e), ip, n)
  {
    hide Accounted, Apply, SenderProto, SenderHw;
    MessageCases(cfg, h.table, e);
    var o := Apply(cfg, h.table, e);
    var h' := Step(cfg, h, e);
    assert h'.submitted == h.submitted;
    if o.table == h.table && Departures(Subject(e), o.sent) == [] {
      assert h' == h;
    } else {
      var sender, mac := SenderProto(e.body), SenderHw(e.body);
      var i := Find(h.table, sender);
      FindAfterUpdate(h.table, i, o.table[i], ip);
      DeparturesLeft(sender, h.table[i].pending, mac, ip);
      LeftAppend(h.left, Departures(sender, o.sent), ip);
      if sender == ip {
        Released(h, h', ip, n);
      } else {
        assert LeftTo(h'.left, ip) == LeftTo(h.left, ip);
        SameAccount(h, h', ip, n);
      }
    }
  }

  /** Resolution never reverts, and each operation keeps the shape of the table. */
  lemma StepKeepsTable(cfg: Config, table: seq<Entry>, e: Event)
    requires UniqueIps(table) && ResolvedHoldNothing(table)
    ensures var t := Apply(cfg, table, e).table;
            && UniqueIps(t) && ResolvedHoldNothing(t)
            && forall ip :: Resolved(table, ip) ==> Resolved(t, ip)
  {
    if e.Post? {
      PostrouteKeepsTable(table, e.target, e.p);
    } else {
      hide Apply;
      MessageCases(cfg, table, e);
      if Apply(cfg, table, e).table != table {
        ReplyKeepsTable(table, SenderProto(e.body), SenderHw(e.body));
      }
    }
  }

  lemma PostrouteKeepsTable(table: seq<Entry>, target: u32, p: Packet)
    requires UniqueIps(table) && ResolvedHoldNothing(table)
    ensures var t := Postroute(table, target, p).table;
            && UniqueIps(t) && ResolvedHoldNothing(t)
            && forall ip :: Resolved(table, ip) ==> Resolved(t, ip)
  {
    var t := Ensured(table, target, p.intf);
    var i := Find(t, target);
    forall ip ensures Resolved(table, ip) ==> Resolved(Postroute(table, target, p).table, ip) {
      EnsuredKeeps(table, target, p.intf, ip);
      FindAfterUpdate(t, i, t[i].(pending := [p] + t[i].pending), ip);
    }
  }

  lemma ReplyKeepsTable(table: seq<Entry>, ip: u32, mac: Mac)
    requires UniqueIps(table) && ResolvedHoldNothing(table)
    ensures var t := UpdateFromReply(table, ip, mac).table;
            && UniqueIps(t) && ResolvedHoldNothing(t)
            && forall other :: Resolved(table, other) ==> Resolved(t, other)
  {
    var i := Find(table, ip);
    if i < |table| {
      var t := UpdateFromReply(table, ip, mac).table;
      forall other ensures Resolved(table, other) ==> Resolved(t, other) {
        FindAfterUpdate(table, i, t[i], other);
      }
    }
  }

  /** An ARP reply for an address nobody asked for changes nothing and sends nothing. */
  lemma UnsolicitedReplyIgnored(cfg: Config, table: seq<Entry>, intf: nat, p: bytes)
    requires |p| >= 28 && Opcode(p) == Htons(ARP_OP_REPLY)
    requires forall i :: 0 <= i < |table| ==> table[i].ip != SenderProto(p)
    ensures Input(cfg, table, intf, p) == (Outcome(table, []), true)
  {
    HtonsDistinct();
    FindUnique(table, SenderProto(p), |table|);
  }

  // ---------------------------------------------------------------- which reply counts

  /** The event is an ARP reply from `ip`. */
  predicate IsReplyFrom(e: Event, ip: u32) {
    e.Message? && |e.body| >= 28 && Opcode(e.body) == Htons(ARP_OP_REPLY) && SenderProto(e.body) == ip
  }

  predicate Asked(events: seq<Event>, ip: u32) {
    exists i :: 0 <= i < |events| && events[i].Post? && events[i].target == ip
  }

  /** Event `k` is a reply from `ip`, and a packet for `ip` came before it. */
  predicate Answers(events: seq<Event>, k: nat, ip: u32) {
    k < |events| && IsReplyFrom(events[k], ip) && Asked(events[..k], ip)
  }

  predicate FirstAnswer(events: seq<Event>, k: nat, ip: u32) {
    Answers(events, k, ip) && forall j :: 0 <= j < k ==> !Answers(events, j, ip)
  }

  predicate LatestAnswer(events: seq<Event>, k: nat, ip: u32) {
    Answers(events, k, ip) && forall j :: k < j < |events| ==> !Answers(events, j, ip)
  }

  predicate Has(table: seq<Entry>, ip: u32) {
    Find(table, ip) < |table|
  }

  function MacOf(table: seq<Entry>, ip: u32): Mac
    requires Has(table, ip)
  {
    table[Find(table, ip)].mac
  }

  /** What a packet does to the entry of an address. */
  lemma PostEntry(table: seq<Entry>, target: u32, p: Packet, ip: u32)
    ensures var t := Postroute(table, target, p).table;
            && (Has(t, ip) <==> Has(table, ip) || target == ip)
            && (Resolved(t, ip) <==> Resolved(table, ip))
            && (Resolved(t, ip) ==> MacOf(t, ip) == MacOf(table, ip))
  {
    var t := Ensured(table, target, p.intf);
    var i := Find(t, target);
    FindAfterAdd(table, Entry(target, NO_MAC, p.intf, false, []), ip);
    FindAfterUpdate(t, i, t[i].(pending := [p] + t[i].pending), ip);
  }

  lemma ReplyEntry(table: seq<Entry>, sender: u32, mac: Mac, ip: u32)
    ensures var t := UpdateFromReply(table, sender, mac).table;
            && (Has(t, ip) <==> Has(table, ip))
            && (Resolved(t, ip) <==> Resolved(table, ip) || (Has(table, ip) && sender == ip))
            && (Resolved(t, ip) ==> MacOf(t, ip) == if sender == ip then mac else MacOf(table, ip))
  {
    var i := Find(table, sender);
    if i < |table| {
      FindAfterUpdate(table, i, table[i].(resolved := true, mac := mac, pending := []), ip);
    }
  }

  /** An event creates the entry, resolves it, or leaves it, and it resolves exactly on a reply from the address. */
  lemma StepEntry(cfg: Config, table: seq<Entry>, e: Event, ip: u32)
    ensures var t := Apply(cfg, table, e).table;
            && (Has(t, ip) <==> Has(table, ip) || (e.Post? && e.target == ip))
            && (Resolved(t, ip) <==> Resolved(table, ip) || (Has(table, ip) && IsReplyFrom(e, ip)))
            && (Resolved(t, ip) ==>
                  MacOf(t, ip) == if IsReplyFrom(e, ip) then SenderHw(e.body) else MacOf(table, ip))
  {
    hide Has, Resolved, MacOf, Opcode, SenderProto, SenderHw, TargetProto, Htons, UpdateFromReply, Postroute;
    if e.Post? {
      PostEntry(table, e.target, e.p, ip);
    } else if |e.body| >= 28 {
      HtonsDistinct();
      ReplyEntry(table, SenderProto(e.body), SenderHw(e.body), ip);
    }
  }

  lemma AnswersPrefix(events: seq<Event>, n: nat, k: nat, ip: u32)
    requires k < n <= |events|
    ensures Answers(events[..n], k, ip) <==> Answers(events, k, ip)
  {
    assert events[..n][..k] == events[..k];
  }

  /** After every run: who has an entry, whose entry is resolved, and with which MAC address. */
  lemma {:induction false} EntriesOfRun(cfg: Config, events: seq<Event>, ip: u32)
    ensures var t := Run(cfg, events).table;
            && (Has(t, ip) <==> Asked(events, ip))
            && (Resolved(t, ip) <==> exists k: nat :: Answers(events, k, ip))
            && forall k: nat :: LatestAnswer(events, k, ip) ==> Resolved(t, ip) && MacOf(t, ip) == SenderHw(events[k].body)
  {
    hide Has, MacOf, Resolved, Apply, SenderHw, Opcode, SenderProto, Htons;
    if events == [] {
      assert Run(cfg, events).table == [];
      EmptyTable(ip);
    } else {
      var n := |events| - 1;
      var before, e := events[..n], events[n];
      var t := Run(cfg, before).table;
      EntriesOfRun(cfg, before, ip);
      StepEntry(cfg, t, e, ip);
      assert Asked(events, ip) <==> Asked(before, ip) || (e.Post? && e.target == ip) by {
        assert forall i :: 0 <= i < n ==> events[i] == before[i];
      }
      forall k: nat | k < n ensures Answers(before, k, ip) <==> Answers(events, k, ip) {
        AnswersPrefix(events, n, k, ip);
      }
      assert Answers(events, n, ip) <==> IsReplyFrom(e, ip) && Has(t, ip);
      if Resolved(t, ip) {
        var k: nat :| Answers(before, k, ip);
        assert Answers(events, k, ip);
        ResolvedHasEntry(t, ip);
      }
      forall k: nat | LatestAnswer(events, k, ip)
        ensures Resolved(Run(cfg, events).table, ip) && MacOf(Run(cfg, events).table, ip) == SenderHw(events[k].body)
      {
        if k < n {
          assert LatestAnswer(before, k, ip);
        }
      }
    }
  }

  lemma EmptyTable(ip: u32)
    ensures !Has([], ip) && !Resolved([], ip)
  {
  }

  lemma ResolvedHasEntry(table: seq<Entry>, ip: u32)
    requires Resolved(table, ip)
    ensures Has(table, ip)
  {
  }

  // ---------------------------------------------------------------- the law over every run

  /** The table after every run has one entry per address, and the resolved ones hold nothing. */
  lemma {:induction false} TableOfRun(cfg: Config, events: seq<Event>)
    ensures UniqueIps(Run(cfg, events).table) && ResolvedHoldNothing(Run(cfg, events).table)
  {
    if events != [] {
      TableOfRun(cfg, events[..|events| - 1]);
      StepKeepsTable(cfg, Run(cfg, events[..|events| - 1]).table, events[|events| - 1]);
    }
  }

  lemma StepAccounted(cfg: Config, h: History, e: Event, ip: u32, n: nat)
    requires Accounted(h, ip, n)
    requires !Resolved(h.table, ip) && Resolved(Step(cfg, h, e).table, ip) ==> n == |To(h.submitted, ip)|
    ensures Accounted(Step(cfg, h, e), ip, n)
  {
    hide Accounted, Resolved, To, Step;
    if e.Post? {
      PostrouteAccounted(cfg, h, e, ip, n);
    } else {
      ReplyAccounted(cfg, h, e, ip, n);
    }
  }

  lemma {:induction false} HeldUntilAnswered(cfg: Config, events: seq<Event>, ip: u32)
    requires forall k: nat :: !Answers(events, k, ip)
    ensures Accounted(Run(cfg, events), ip, |To(Run(cfg, events).submitted, ip)|) && !Resolved(Run(cfg, events).table, ip)
  {
    hide Answers, Step;
    EntriesOfRun(cfg, events, ip);
    if events != [] {
      var n := |events| - 1;
      forall k: nat ensures !Answers(events[..n], k, ip) {
        if k < n {
          AnswersPrefix(events, n, k, ip);
        } else {
          NoAnswerBeyond(events[..n], k, ip);
        }
      }
      HeldUntilAnswered(cfg, events[..n], ip);
      StepAccounted(cfg, Run(cfg, events[..n]), events[n], ip, |To(Run(cfg, events[..n]).submitted, ip)|);
    }
  }

  lemma NoAnswerBeyond(events: seq<Event>, k: nat, ip: u32)
    requires k >= |events|
    ensures !Answers(events, k, ip)
  {
  }

  lemma {:induction false} GoneOnceAnswered(cfg: Config, events: seq<Event>, k: nat, ip: u32)
    requires FirstAnswer(events, k, ip)
    ensures Accounted(Run(cfg, events), ip, |To(Run(cfg, events[..k]).submitted, ip)|) && Resolved(Run(cfg, events).table, ip)
  {
    hide Accounted, Step;
    EntriesOfRun(cfg, events, ip);
    var n := |events| - 1;
    var before := events[..n];
    if k < n {
      assert before[..k] == events[..k];
      assert FirstAnswer(before, k, ip) by {
        forall j: nat | j <= k ensures Answers(before, j, ip) <==> Answers(events, j, ip) {
          AnswersPrefix(events, n, j, ip);
        }
      }
      GoneOnceAnswered(cfg, before, k, ip);
    } else {
      forall j: nat ensures !Answers(before, j, ip) {
        if j < n {
          AnswersPrefix(events, n, j, ip);
        }
      }
      HeldUntilAnswered(cfg, before, ip);
    }
    StepAccounted(cfg, Run(cfg, before), events[n], ip, |To(Run(cfg, events[..k]).submitted, ip)|);
  }

  /**
   The holding law over every run.  As long as no reply has answered for a next hop, all its packets are
   held, newest first, and none has left.  Once event `k` was the first to answer, none is held: the
   packets submitted before `k` have left newest first, and after them the later ones in the order they
   came, each exactly once.
   */
  lemma HoldingConservation(cfg: Config, events: seq<Event>, ip: u32)
    ensures var h := Run(cfg, events);
            && UniqueIps(h.table) && ResolvedHoldNothing(h.table)
            && ((forall k: nat :: !Answers(events, k, ip)) ==>
                  Held(h.table, ip) == Reverse(To(h.submitted, ip)) && LeftTo(h.left, ip) == [])
            && (forall k: nat :: FirstAnswer(events, k, ip) ==>
                  && Held(h.table, ip) == []
                  && LeftAfter(LeftTo(h.left, ip), To(h.submitted, ip), |To(Run(cfg, events[..k]).submitted, ip)|))
  {
    hide Run, LeftAfter, IsReplyFrom, Asked, UniqueIps, ResolvedHoldNothing;
    TableOfRun(cfg, events);
    if forall k: nat :: !Answers(events, k, ip) {
      HeldUntilAnswered(cfg, events, ip);
    }
    forall k: nat | FirstAnswer(events, k, ip)
      ensures Held(Run(cfg, events).table, ip) == []
      ensures LeftAfter(LeftTo(Run(cfg, events).left, ip), To(Run(cfg, events).submitted, ip), |To(Run(cfg, events[..k]).submitted, ip)|)
    {
      GoneOnceAnswered(cfg, events, k, ip);
    }
  }

  /** What a step lets go, it sends to the MAC address in the entry of the next hop. */
  lemma DeparturesToEntry(cfg: Config, table: seq<Entry>, e: Event, i: nat)
    requires i < |Departures(Subject(e), Apply(cfg, table, e).sent)|
    ensures var o := Apply(cfg, table, e);
            var d := Departures(Subject(e), o.sent)[i];
            Resolved(o.table, d.ip) && d.mac == MacOf(o.table, d.ip)
  {
    var o := Apply(cfg, table, e);
    if e.Post? {
      DeparturesOfOne(e.target, o.sent[0]);
      assert o.sent == [o.sent[0]];
    } else {
      hide Apply, SenderProto, SenderHw;
      MessageCases(cfg, table, e);
      var sender, mac := SenderProto(e.body), SenderHw(e.body);
      var k := Find(table, sender);
      DeparturesOfData(sender, table[k].pending, mac);
      FindAfterUpdate(table, k, o.table[k], sender);
    }
  }

  /**
   Every departure goes to the MAC address of the latest reply: what event `k` lets go has the sender
   hardware address of the last event up to `k` that answers for its next hop.
   */
  lemma DeparturesUseLatestReply(cfg: Config, events: seq<Event>, k: nat, i: nat)
    requires k < |events| && |Run(cfg, events[..k]).left| <= i < |Run(cfg, events[..k + 1]).left|
    ensures var d := Run(cfg, events[..k + 1]).left[i];
            exists j: nat :: LatestAnswer(events[..k + 1], j, d.ip) && d.mac == SenderHw(events[j].body)
  {
    hide Apply, SenderHw, Departures;
    var now := events[..k + 1];
    assert now[..k] == events[..k] && now[k] == events[k];
    var h := Run(cfg, events[..k]);
    DeparturesToEntry(cfg, h.table, events[k], i - |h.left|);
    var d := Run(cfg, now).left[i];
    EntriesOfRun(cfg, now, d.ip);
    assert Resolved(Run(cfg, now).table, d.ip);
    var j: nat :| Answers(now, j, d.ip);
    var l := LatestExists(now, j, d.ip);
    assert LatestAnswer(now, l, d.ip) && events[l] == now[l];
  }

  lemma {:induction false} LatestExists(events: seq<Event>, k: nat, ip: u32) returns (l: nat)
    requires Answers(events, k, ip)
    ensures LatestAnswer(events, l, ip)
    decreases |events| - k
  {
    if j: nat :| k < j < |events| && Answers(events, j, ip) {
      l := LatestExists(events, j, ip);
    } else {
      l := k;
    }
  }

  lemma {:induction false} FirstExists(events: seq<Event>, k: nat, ip: u32) returns (l: nat)
    requires Answers(events, k, ip)
    ensures FirstAnswer(events, l, ip)
    decreases k
  {
    if j: nat :| j < k && Answers(events, j, ip) {
      l := FirstExists(events, j, ip);
    } else {
      l := k;
    }
  }

  /** In numbers: for each next hop, the packets held and the packets gone are the packets submitted. */
  lemma NothingLostOrDuplicated(cfg: Config, events: seq<Event>, ip: u32)
    ensures var h := Run(cfg, events);
            multiset(Held(h.table, ip)) + multiset(LeftTo(h.left, ip)) == multiset(To(h.submitted, ip))
  {
    hide Run, IsReplyFrom, Asked, Held, To, LeftTo, LeftAfter, UniqueIps, ResolvedHoldNothing;
    var h := Run(cfg, events);
    HoldingConservation(cfg, events, ip);
    if k: nat :| Answers(events, k, ip) {
      var l := FirstExists(events, k, ip);
      LeftAfterSame(LeftTo(h.left, ip), To(h.submitted, ip), |To(Run(cfg, events[..l]).submitted, ip)|);
    } else {
      ReverseMultiset(To(h.submitted, ip));
    }
  }

  lemma LeftAfterSame(left: seq<Packet>, submitted: seq<Packet>, n: nat)
    requires LeftAfter(left, submitted, n)
    ensures multiset(left) == multiset(submitted)
  {
    ReverseMultiset(submitted[..n]);
    assert submitted == submitted[..n] + submitted[n..];
  }
}

/** The round robin over the prefixes that want to send datagrams: one call of
    h3zero_callback_prepare_datagram as a function, and its fairness. */
module Datagram {
  import opened Bytes
  import opened PrefixTable
  import Varint

  /** What an application does when it is polled: the datagram it provides (0: none),
      whether it says it has more, whether it marks itself ready on the side. */
  datatype Answer = Answer(length: nat, ready: bool, marked: bool)

  /** The applications, by prefix and by the room they are offered. */
  type Apps = (nat, nat) -> Answer

  function Overhead(prefix: nat): nat {
    |Varint.Encode(prefix / 4)|
  }

  /** One prefix after it was looked at. */
  datatype Polled = Polled(entry: Entry, asked: bool, sent: bool)

  function Poll(e: Entry, apps: Apps, space: nat): Polled {
    if !e.ready || e.callback.None? then Polled(e, false, false)
    else if space <= Overhead(e.prefix) then Polled(e.(ready := false), false, false)
    else
      var a := apps(e.prefix, space - Overhead(e.prefix));
      Polled(e.(ready := a.ready || a.marked), true, a.length > 0)
  }

  /** The entries after a scan, the prefixes asked, in order, and the entry that sent. */
  datatype Scanned = Scanned(entries: seq<Entry>, asked: seq<nat>, sent: Option<nat>)

  /** Entries i to j - 1 in order, until one of them sends. */
  function Scan(es: seq<Entry>, i: nat, j: nat, apps: Apps, space: nat): (r: Scanned)
    requires i <= j <= |es|
    ensures |r.entries| == |es| && (r.sent.Some? ==> i <= r.sent.value < j)
    decreases j - i
  {
    if i == j then Scanned(es, [], None)
    else
      var p := Poll(es[i], apps, space);
      var es1 := es[i := p.entry];
      var asked := if p.asked then [es[i].prefix] else [];
      if p.sent then Scanned(es1, asked, Some(i))
      else
        var r := Scan(es1, i + 1, j, apps, space);
        Scanned(r.entries, asked + r.asked, r.sent)
  }

  /** h3zero_provide_datagram_buffer: the octets put in front of an application's datagram,
      None when it is empty or does not fit. */
  function Provided(prefix: nat, space: nat, length: nat): Option<Bytes> {
    if length > 0 && length + Overhead(prefix) <= space then Some(Varint.Encode(prefix / 4)) else None
  }

  /** h3zero_callback_datagram: the prefix a datagram is for, and its content. */
  function Route(bytes: Bytes): Option<(nat, Bytes)> {
    var p := Varint.Parse(bytes);
    if p.Incomplete? then None
    else
      Varint.ParseUsed(bytes);
      Some((p.value * 4, bytes[p.used..]))
  }

  /** An application that keeps to the room it is offered gets a buffer, and what it puts
      there is routed to the same prefix if and only if that is a client's bidirectional stream. */
  lemma DatagramRoundTrip(prefix: nat, space: nat, content: Bytes)
    requires prefix / 4 < Varint.LIMIT && space > Overhead(prefix) && 0 < |content| <= space - Overhead(prefix)
    ensures var head := Provided(prefix, space, |content|);
            && head.Some? && |head.value + content| <= space
            && Route(head.value + content) == Some((prefix - prefix % 4, content))
            && (Route(head.value + content) == Some((prefix, content)) <==> prefix % 4 == 0)
  {
    hide Varint.Encode;
    var head := Varint.Encode(prefix / 4);
    Varint.EncodeParses(prefix / 4, content);
    assert (head + content)[|head|..] == content;
  }

  /** The first entry to look at: behind the last prefix that sent, if it is still there. */
  function Start(es: seq<Entry>, last: nat): (i: nat)
    ensures i <= |es|
  {
    if Has(es, last) then IndexOf(es, last) + 1 else |es|
  }

  /** A whole call: behind the last sender first, then from the front up to it. */
  function Call(es: seq<Entry>, last: nat, apps: Apps, space: nat): (r: Scanned)
    ensures |r.entries| == |es| && (r.sent.Some? ==> r.sent.value < |es|)
  {
    var start := Start(es, last);
    var r := Scan(es, start, |es|, apps, space);
    if r.sent.Some? then r
    else
      var r2 := Scan(r.entries, 0, start, apps, space);
      Scanned(r2.entries, r.asked + r2.asked, r2.sent)
  }

  function Last(es: seq<Entry>, last: nat, r: Scanned): nat
    requires r.sent.Some? ==> r.sent.value < |es|
  {
    if r.sent.Some? then es[r.sent.value].prefix else last
  }

  predicate AnyReady(es: seq<Entry>) {
    exists i | 0 <= i < |es| :: es[i].ready
  }

  /** A scan that has come to entry i, having asked some applications. */
  ghost predicate Going(goal: Scanned, asked: seq<nat>, es: seq<Entry>, i: nat, j: nat, apps: Apps, space: nat) {
    i <= j <= |es| && var rest := Scan(es, i, j, apps, space);
    goal == Scanned(rest.entries, asked + rest.asked, rest.sent)
  }

  lemma GoingStarts(goal: Scanned, es: seq<Entry>, i: nat, j: nat, apps: Apps, space: nat)
    requires i <= j <= |es| && goal == Scan(es, i, j, apps, space)
    ensures Going(goal, [], es, i, j, apps, space)
  {
  }

  lemma GoingStep(goal: Scanned, asked: seq<nat>, es: seq<Entry>, i: nat, j: nat, apps: Apps, space: nat)
    requires Going(goal, asked, es, i, j, apps, space) && i < j
    ensures var p := Poll(es[i], apps, space);
            var asked1 := asked + if p.asked then [es[i].prefix] else [];
            && (p.sent ==> goal == Scanned(es[i := p.entry], asked1, Some(i)))
            && (!p.sent ==> Going(goal, asked1, es[i := p.entry], i + 1, j, apps, space))
  {
  }

  lemma GoingEnds(goal: Scanned, asked: seq<nat>, es: seq<Entry>, j: nat, apps: Apps, space: nat)
    requires Going(goal, asked, es, j, j, apps, space)
    ensures goal == Scanned(es, asked, None)
  {
  }

  // -------------------------------------------------------------- one call

  predicate NoDuplicates(s: seq<nat>) {
    forall i, j | 0 <= i < j < |s| :: s[i] != s[j]
  }

  /** Polling changes ready flags and nothing else. */
  predicate OnlyFlags(es: seq<Entry>, fs: seq<Entry>) {
    |fs| == |es| && forall k | 0 <= k < |es| :: fs[k] == es[k].(ready := fs[k].ready)
  }

  /** The prefix is one of the entries i to j - 1. */
  predicate Between(es: seq<Entry>, i: nat, j: nat, prefix: nat)
    requires j <= |es|
  {
    exists k | i <= k < j :: es[k].prefix == prefix
  }

  /** A scan polls the entries in order, none twice, up to the first that sends. */
  lemma {:induction false} ScanFacts(es: seq<Entry>, i: nat, j: nat, apps: Apps, space: nat)
    requires i <= j <= |es| && Distinct(es)
    ensures var r := Scan(es, i, j, apps, space);
            var stop := if r.sent.Some? then r.sent.value + 1 else j;
            && OnlyFlags(es, r.entries)
            && (forall k | 0 <= k < |es| ::
                  r.entries[k] == if i <= k < stop then Poll(es[k], apps, space).entry else es[k])
            && (forall k | i <= k < stop :: Poll(es[k], apps, space).sent <==> r.sent == Some(k))
    decreases j - i
  {
    hide Poll;
    if i < j {
      PollFlags(es[i], apps, space);
      var p := Poll(es[i], apps, space);
      if !p.sent { ScanFacts(es[i := p.entry], i + 1, j, apps, space); }
    }
  }

  lemma PollFlags(e: Entry, apps: Apps, space: nat)
    ensures Poll(e, apps, space).entry == e.(ready := Poll(e, apps, space).entry.ready)
    ensures Poll(e, apps, space).sent ==> Poll(e, apps, space).asked
  {
  }

  lemma {:induction false} ScanAsks(es: seq<Entry>, i: nat, j: nat, apps: Apps, space: nat)
    requires i <= j <= |es| && Distinct(es)
    ensures var asked := Scan(es, i, j, apps, space).asked;
            NoDuplicates(asked) && forall k | 0 <= k < |asked| :: Between(es, i, j, asked[k])
    ensures var r := Scan(es, i, j, apps, space);
            r.sent.Some? ==> r.asked != [] && r.asked[|r.asked| - 1] == es[r.sent.value].prefix
    decreases j - i
  {
    if i < j {
      PollFlags(es[i], apps, space);
      var p := Poll(es[i], apps, space);
      hide Poll;
      var es1 := es[i := p.entry];
      if !p.sent {
        ScanAsks(es1, i + 1, j, apps, space);
        var rest := Scan(es1, i + 1, j, apps, space).asked;
        assert Scan(es, i, j, apps, space).asked == (if p.asked then [es[i].prefix] else []) + rest;
        hide Scan;
        assert forall k | 0 <= k < |rest| ::
            Between(es1, i + 1, j, rest[k]) && Between(es, i, j, rest[k]) && rest[k] != es[i].prefix;
      }
    }
  }

  /** One call asks no application twice, and the one that sends is the last one asked. */
  lemma AskedAtMostOnce(es: seq<Entry>, last: nat, apps: Apps, space: nat)
    requires Distinct(es)
    ensures var r := Call(es, last, apps, space);
            && NoDuplicates(r.asked)
            && (forall k | 0 <= k < |r.asked| :: Between(es, 0, |es|, r.asked[k]))
            && (r.sent.Some? ==> r.asked != [] && r.asked[|r.asked| - 1] == es[r.sent.value].prefix)
  {
    var start := Start(es, last);
    ScanAsks(es, start, |es|, apps, space);
    ScanFacts(es, start, |es|, apps, space);
    var r := Scan(es, start, |es|, apps, space);
    assert forall k | 0 <= k < |r.asked| :: Between(es, 0, |es|, r.asked[k]);
    if r.sent.None? {
      assert Distinct(r.entries);
      ScanAsks(r.entries, 0, start, apps, space);
      var r2 := Scan(r.entries, 0, start, apps, space);
      hide Poll, Scan, Start, NoDuplicates;
      AskedTogether(es, r.entries, start, r.asked, r2.asked);
    }
  }

  lemma AskedTogether(es: seq<Entry>, fs: seq<Entry>, start: nat, a: seq<nat>, b: seq<nat>)
    requires Distinct(es) && OnlyFlags(es, fs) && start <= |es| && NoDuplicates(a) && NoDuplicates(b)
    requires forall k | 0 <= k < |a| :: Between(es, start, |es|, a[k])
    requires forall k | 0 <= k < |b| :: Between(fs, 0, start, b[k])
    ensures NoDuplicates(a + b) && forall k | 0 <= k < |a + b| :: Between(es, 0, |es|, (a + b)[k])
  {
    assert forall k | 0 <= k < |b| :: Between(fs, 0, start, b[k]) && Between(es, 0, start, b[k]);
    assert forall p | Between(es, 0, start, p) :: !Between(es, start, |es|, p) && Between(es, 0, |es|, p);
    assert forall p | Between(es, start, |es|, p) :: Between(es, 0, |es|, p);
    hide Between, Distinct, OnlyFlags;
    var c := a + b;
    assert forall k | 0 <= k < |c| :: c[k] == if k < |a| then a[k] else b[k - |a|];
  }

  /** Entry k comes up for polling in a call as number Turn. */
  function Turn(n: nat, start: nat, k: nat): nat
    requires start <= n && k < n
  {
    if k >= start then k - start else n - start + k
  }

  /** A call polls the entries in the order of their turns up to the first that
      sends. If none sends, all were polled. */
  lemma CallFacts(es: seq<Entry>, last: nat, apps: Apps, space: nat)
    requires Distinct(es)
    ensures var r, n, start := Call(es, last, apps, space), |es|, Start(es, last);
            && OnlyFlags(es, r.entries)
            && (forall k | 0 <= k < n ::
                  var polled := r.sent.Some? ==> Turn(n, start, k) <= Turn(n, start, r.sent.value);
                  && r.entries[k] == (if polled then Poll(es[k], apps, space).entry else es[k])
                  && (polled ==> (Poll(es[k], apps, space).sent <==> r.sent == Some(k))))
  {
    var start := Start(es, last);
    ScanFacts(es, start, |es|, apps, space);
    var r := Scan(es, start, |es|, apps, space);
    hide Poll, Scan, Start;
    if r.sent.None? { ScanFacts(r.entries, 0, start, apps, space); }
  }

  // ------------------------------------------------- one call, by the answers

  /** The octets of the identifier in front of a datagram. */
  function Head(prefix: nat): nat {
    if prefix < 0x100 then 1 else if prefix < 0x1_0000 then 2 else if prefix < 0x1_0000_0000 then 4 else 8
  }

  lemma OverheadIs(prefix: nat)
    ensures Overhead(prefix) == Head(prefix)
  {
  }

  /** The application of an entry is asked when its turn comes. */
  predicate Wants(e: Entry, space: nat) {
    e.ready && e.callback.Some? && space > Head(e.prefix)
  }

  /** What the application of an entry answers to a call with this room. */
  function AnswerOf(e: Entry, apps: Apps, space: nat): Answer
    requires space > Head(e.prefix)
  {
    apps(e.prefix, space - Head(e.prefix))
  }

  lemma PollIs(e: Entry, apps: Apps, space: nat)
    ensures var p := Poll(e, apps, space);
            if Wants(e, space)
            then var a := AnswerOf(e, apps, space); p == Polled(e.(ready := a.ready || a.marked), true, a.length > 0)
            else p == Polled(e.(ready := e.ready && e.callback.None?), false, false)
  {
    OverheadIs(e.prefix);
  }

  /** The prefixes asked are those that want it and whose turn comes. */
  lemma {:induction false} ScanAskedIff(es: seq<Entry>, i: nat, j: nat, apps: Apps, space: nat)
    requires i <= j <= |es| && Distinct(es)
    ensures var r := Scan(es, i, j, apps, space);
            var stop := if r.sent.Some? then r.sent.value + 1 else j;
            forall k | 0 <= k < |es| ::
              es[k].prefix in r.asked <==> i <= k < stop && Poll(es[k], apps, space).asked
    decreases j - i
  {
    if i < j {
      PollFlags(es[i], apps, space);
      var p := Poll(es[i], apps, space);
      hide Poll;
      var es1 := es[i := p.entry];
      if !p.sent {
        ScanAskedIff(es1, i + 1, j, apps, space);
        assert forall k | 0 <= k < |es| :: es1[k].prefix == es[k].prefix && (k != i ==> es1[k] == es[k]);
      }
    }
  }

  /** Entry k had its turn in a call that ended with this sender, if any. */
  predicate HadTurn(n: nat, start: nat, sent: Option<nat>, k: nat)
    requires start <= n && k < n && (sent.Some? ==> sent.value < n)
  {
    sent.Some? ==> Turn(n, start, k) <= Turn(n, start, sent.value)
  }

  lemma CallAskedIff(es: seq<Entry>, last: nat, apps: Apps, space: nat)
    requires Distinct(es)
    ensures var r := Call(es, last, apps, space);
            forall k | 0 <= k < |es| ::
              es[k].prefix in r.asked <==>
              HadTurn(|es|, Start(es, last), r.sent, k) && Poll(es[k], apps, space).asked
  {
    var start := Start(es, last);
    ScanFacts(es, start, |es|, apps, space);
    ScanAskedIff(es, start, |es|, apps, space);
    var r := Scan(es, start, |es|, apps, space);
    hide Poll, Scan, Start;
    if r.sent.None? {
      ScanFacts(r.entries, 0, start, apps, space);
      ScanAskedIff(r.entries, 0, start, apps, space);
    }
  }

  /** The result of a call in terms of the answers: whoever had a turn and was asked is ready
      afterwards if and only if its answer said so or it marked itself; whoever had a turn without
      room for its identifier is not; the others are as before. The sender is the one whose answer
      has octets. */
  lemma CallAnswers(es: seq<Entry>, last: nat, apps: Apps, space: nat)
    requires Distinct(es)
    ensures var r := Call(es, last, apps, space);
            forall k | 0 <= k < |es| ::
              var turn := HadTurn(|es|, Start(es, last), r.sent, k);
              && (es[k].prefix in r.asked <==> turn && Wants(es[k], space))
              && (turn && Wants(es[k], space) ==>
                    var a := AnswerOf(es[k], apps, space);
                    r.entries[k] == es[k].(ready := a.ready || a.marked) && (r.sent == Some(k) <==> a.length > 0))
              && (turn && !Wants(es[k], space) ==>
                    r.entries[k] == es[k].(ready := es[k].ready && es[k].callback.None?) && r.sent != Some(k))
              && (!turn ==> r.entries[k] == es[k])
  {
    hide Poll, Call, Start, Turn;
    CallFacts(es, last, apps, space);
    CallAskedIff(es, last, apps, space);
    forall k | 0 <= k < |es|
      ensures var p := Poll(es[k], apps, space);
              if Wants(es[k], space)
              then var a := AnswerOf(es[k], apps, space);
                   p == Polled(es[k].(ready := a.ready || a.marked), true, a.length > 0)
              else p == Polled(es[k].(ready := es[k].ready && es[k].callback.None?), false, false)
    {
      PollIs(es[k], apps, space);
    }
  }

  /** The connection stays active when an application that was asked has more to send. */
  lemma MoreKeepsActive(es: seq<Entry>, last: nat, apps: Apps, space: nat, k: nat)
    requires Distinct(es) && k < |es| && es[k].prefix in Call(es, last, apps, space).asked
    ensures Wants(es[k], space)
         && (AnswerOf(es[k], apps, space).ready || AnswerOf(es[k], apps, space).marked ==>
               AnyReady(Call(es, last, apps, space).entries))
  {
    hide Call, Start, HadTurn, Distinct;
    CallAnswers(es, last, apps, space);
    assert Call(es, last, apps, space).entries[k].ready ==> AnyReady(Call(es, last, apps, space).entries);
  }

  // --------------------------------------------------------------- fairness

  /** Between calls the applications may mark prefixes ready. */
  function Raise(es: seq<Entry>, raised: set<nat>): (fs: seq<Entry>)
    ensures |fs| == |es| && OnlyFlags(es, fs)
    ensures forall k | 0 <= k < |es| :: fs[k].ready == (es[k].ready || es[k].prefix in raised)
  {
    seq(|es|, k requires 0 <= k < |es| => es[k].(ready := es[k].ready || es[k].prefix in raised))
  }

  datatype Round = Round(raised: set<nat>, apps: Apps, space: nat)

  /** Entry x sends in one of the rounds. */
  predicate Served(es: seq<Entry>, last: nat, rounds: seq<Round>, x: nat)
    decreases |rounds|
  {
    rounds != [] &&
    var fs := Raise(es, rounds[0].raised);
    var r := Call(fs, last, rounds[0].apps, rounds[0].space);
    r.sent == Some(x) || Served(r.entries, Last(fs, last, r), rounds[1..], x)
  }

  /** In every round there is room for the prefix and its application has something to send. */
  predicate Willing(rounds: seq<Round>, prefix: nat) {
    forall k | 0 <= k < |rounds| ::
      && rounds[k].space > Overhead(prefix)
      && rounds[k].apps(prefix, rounds[k].space - Overhead(prefix)).length > 0
  }

  /** When entry k has just sent, entry x moves forward. */
  lemma TurnAfter(es: seq<Entry>, fs: seq<Entry>, last: nat, k: nat, x: nat)
    requires Distinct(es) && OnlyFlags(es, fs) && k < |es| && x < |es| && k != x
    requires Turn(|es|, Start(es, last), k) < Turn(|es|, Start(es, last), x)
    ensures Turn(|es|, Start(fs, es[k].prefix), x) < Turn(|es|, Start(es, last), x)
  {
    assert fs[k].prefix == es[k].prefix;
    assert Has(fs, es[k].prefix) && IndexOf(fs, es[k].prefix) == k by { SameIndex(es, fs, k); }
  }

  lemma SameIndex(es: seq<Entry>, fs: seq<Entry>, k: nat)
    requires Distinct(es) && OnlyFlags(es, fs) && k < |es|
    ensures Has(fs, es[k].prefix) && IndexOf(fs, es[k].prefix) == k
  {
    assert fs[k].prefix == es[k].prefix;
    var i := IndexOf(fs, es[k].prefix);
    assert es[i].prefix == fs[i].prefix;
  }

  lemma SameStart(es: seq<Entry>, fs: seq<Entry>, last: nat)
    requires Distinct(es) && OnlyFlags(es, fs)
    ensures Start(es, last) == Start(fs, last)
  {
    if Has(es, last) {
      SameIndex(es, fs, IndexOf(es, last));
    }
  }

  /** Entry x is waiting for its turn. */
  predicate Waiting(es: seq<Entry>, x: nat, prefix: nat) {
    Distinct(es) && x < |es| && es[x].prefix == prefix && es[x].ready && es[x].callback.Some?
  }

  /** In one round entry x sends, or it goes on waiting and moves forward. */
  lemma OneRound(es: seq<Entry>, last: nat, round: Round, x: nat, prefix: nat)
    requires Waiting(es, x, prefix) && Willing([round], prefix)
    ensures var fs := Raise(es, round.raised);
            var r := Call(fs, last, round.apps, round.space);
            || r.sent == Some(x)
            || (&& Waiting(r.entries, x, prefix) && |r.entries| == |es|
                && Turn(|es|, Start(r.entries, Last(fs, last, r)), x) < Turn(|es|, Start(es, last), x))
  {
    var fs := Raise(es, round.raised);
    assert Distinct(fs);
    SameStart(es, fs, last);
    CallFacts(fs, last, round.apps, round.space);
    var r := Call(fs, last, round.apps, round.space);
    assert [round][0] == round;
    assert Poll(fs[x], round.apps, round.space).sent;
    hide Poll, Call, Start;
    if r.sent != Some(x) {
      TurnAfter(fs, r.entries, last, r.sent.value, x);
      assert r.entries[x] == fs[x];
    }
  }

  /** A ready prefix that is willing is served within as many calls as its turn says. */
  lemma {:induction false} ServedInTurn(es: seq<Entry>, last: nat, rounds: seq<Round>, x: nat, prefix: nat)
    requires Waiting(es, x, prefix) && Willing(rounds, prefix)
    requires Turn(|es|, Start(es, last), x) < |rounds|
    ensures Served(es, last, rounds, x)
    decreases |rounds|
  {
    assert Willing([rounds[0]], prefix) && Willing(rounds[1..], prefix);
    hide Willing, Waiting, Call, Start, Turn, Raise;
    OneRound(es, last, rounds[0], x, prefix);
    var fs := Raise(es, rounds[0].raised);
    var r := Call(fs, last, rounds[0].apps, rounds[0].space);
    if r.sent != Some(x) { ServedInTurn(r.entries, Last(fs, last, r), rounds[1..], x, prefix); }
  }

  /** The round robin is fair: N calls are enough for any of N prefixes. */
  lemma Fair(es: seq<Entry>, last: nat, rounds: seq<Round>, x: nat)
    requires Distinct(es) && x < |es| && es[x].ready && es[x].callback.Some?
    requires Willing(rounds, es[x].prefix) && |rounds| >= |es|
    ensures Served(es, last, rounds, x)
  {
    hide Served, Willing, Start;
    ServedInTurn(es, last, rounds, x, es[x].prefix);
  }

  /** How often entry x sends. */
  function Sends(es: seq<Entry>, last: nat, rounds: seq<Round>, x: nat): nat
    decreases |rounds|
  {
    if rounds == [] then 0
    else
      var fs := Raise(es, rounds[0].raised);
      var r := Call(fs, last, rounds[0].apps, rounds[0].space);
      (if r.sent == Some(x) then 1 else 0) + Sends(r.entries, Last(fs, last, r), rounds[1..], x)
  }

  /** In every round there is room for the prefix, and its application sends and says it has more. */
  predicate Insatiable(rounds: seq<Round>, prefix: nat) {
    Willing(rounds, prefix) &&
    forall k | 0 <= k < |rounds| :: rounds[k].apps(prefix, rounds[k].space - Overhead(prefix)).ready
  }

  /** After sending, an entry whose application has more waits again, at the end of the round. */
  lemma SenderWaitsAgain(es: seq<Entry>, last: nat, round: Round, x: nat, prefix: nat)
    requires Waiting(es, x, prefix) && Insatiable([round], prefix)
    ensures var fs := Raise(es, round.raised);
            var r := Call(fs, last, round.apps, round.space);
            r.sent == Some(x) ==>
              && Waiting(r.entries, x, prefix) && |r.entries| == |es|
              && Turn(|es|, Start(r.entries, Last(fs, last, r)), x) == |es| - 1
  {
    var fs := Raise(es, round.raised);
    assert Distinct(fs) && [round][0] == round;
    CallFacts(fs, last, round.apps, round.space);
    var r := Call(fs, last, round.apps, round.space);
    assert Poll(fs[x], round.apps, round.space).entry.ready;
    if r.sent == Some(x) { SameIndex(fs, r.entries, x); }
  }

  /** An entry whose application always has more is served again and again: m times within as many
      calls as its turn says and m - 1 rounds more. */
  lemma {:induction false} ServedAgain(es: seq<Entry>, last: nat, rounds: seq<Round>, x: nat, prefix: nat, m: nat)
    requires Waiting(es, x, prefix) && Insatiable(rounds, prefix) && m > 0 && x < |es|
    requires |rounds| > Turn(|es|, Start(es, last), x) + (m - 1) * |es|
    ensures Sends(es, last, rounds, x) >= m
    decreases |rounds|
  {
    InsatiableParts(rounds, prefix);
    hide *;
    OneRound(es, last, rounds[0], x, prefix);
    SenderWaitsAgain(es, last, rounds[0], x, prefix);
    SendsStep(es, last, rounds, x);
    var fs := Raise(es, rounds[0].raised);
    var r := Call(fs, last, rounds[0].apps, rounds[0].space);
    if r.sent != Some(x) {
      ServedAgain(r.entries, Last(fs, last, r), rounds[1..], x, prefix, m);
    } else if m > 1 {
      OneLess(m, |es|);
      ServedAgain(r.entries, Last(fs, last, r), rounds[1..], x, prefix, m - 1);
    }
  }

  lemma OneLess(m: nat, n: nat)
    requires m > 0
    ensures (m - 1) * n == (m - 2) * n + n && m * n == (m - 1) * n + n
  {
  }

  lemma InsatiableParts(rounds: seq<Round>, prefix: nat)
    requires rounds != [] && Insatiable(rounds, prefix)
    ensures Insatiable([rounds[0]], prefix) && Willing([rounds[0]], prefix) && Insatiable(rounds[1..], prefix)
  {
  }

  lemma SendsStep(es: seq<Entry>, last: nat, rounds: seq<Round>, x: nat)
    requires rounds != []
    ensures var fs := Raise(es, rounds[0].raised);
            var r := Call(fs, last, rounds[0].apps, rounds[0].space);
            var later := Sends(r.entries, Last(fs, last, r), rounds[1..], x);
            Sends(es, last, rounds, x) == (if r.sent == Some(x) then 1 else 0) + later
  {
  }

  /** Once in every N calls, over any number of rounds. */
  lemma ServedOnceARound(es: seq<Entry>, last: nat, rounds: seq<Round>, x: nat, m: nat)
    requires Distinct(es) && x < |es| && es[x].ready && es[x].callback.Some?
    requires Insatiable(rounds, es[x].prefix) && |rounds| >= m * |es|
    ensures Sends(es, last, rounds, x) >= m
  {
    hide Sends, Insatiable, Start;
    if m > 0 {
      OneLess(m, |es|);
      ServedAgain(es, last, rounds, x, es[x].prefix, m);
    }
  }

  /** Why room is needed: a ready prefix that is polled is asked or stays ready exactly
      when there is room for its identifier and one octet. Otherwise its flag is lost. */
  lemma InterestKept(e: Entry, apps: Apps, space: nat)
    requires e.ready && e.callback.Some?
    ensures Poll(e, apps, space).asked || Poll(e, apps, space).entry.ready <==> space > Overhead(e.prefix)
  {
  }

  /** There is no room for the identifier of any prefix that is ready. */
  predicate NoRoom(es: seq<Entry>, space: nat) {
    forall k | 0 <= k < |es| :: es[k].ready && es[k].callback.Some? ==> space <= Overhead(es[k].prefix)
  }

  lemma {:induction false} ScanWithoutRoom(es: seq<Entry>, i: nat, j: nat, apps: Apps, space: nat)
    requires i <= j <= |es| && NoRoom(es, space)
    ensures var r := Scan(es, i, j, apps, space);
            && r.asked == [] && r.sent == None && NoRoom(r.entries, space)
    decreases j - i
  {
    hide Overhead;
    if i < j { ScanWithoutRoom(es[i := Poll(es[i], apps, space).entry], i + 1, j, apps, space); }
  }

  /** A call without room asks nobody, sends nothing, and every interest is forgotten: only
      prefixes without a callback stay ready, and they alone keep the connection active. */
  lemma CallWithoutRoom(es: seq<Entry>, last: nat, apps: Apps, space: nat)
    requires Distinct(es) && NoRoom(es, space)
    ensures var r := Call(es, last, apps, space);
            && r.asked == [] && r.sent == None
            && (forall k | 0 <= k < |es| :: r.entries[k] == es[k].(ready := es[k].ready && es[k].callback.None?))
            && (AnyReady(r.entries) <==> exists k | 0 <= k < |es| :: es[k].ready && es[k].callback.None?)
  {
    hide Overhead;
    var start := Start(es, last);
    ScanWithoutRoom(es, start, |es|, apps, space);
    var r := Scan(es, start, |es|, apps, space);
    ScanWithoutRoom(r.entries, 0, start, apps, space);
    CallFacts(es, last, apps, space);
    var all := Call(es, last, apps, space);
    hide Scan, Start, Call;
    forall k | 0 <= k < |es| ensures all.entries[k] == es[k].(ready := es[k].ready && es[k].callback.None?) {
      assert all.entries[k] == Poll(es[k], apps, space).entry;
    }
    hide Poll, NoRoom, OnlyFlags;
    if k :| 0 <= k < |es| && es[k].ready && es[k].callback.None? { assert all.entries[k].ready; }
  }
}

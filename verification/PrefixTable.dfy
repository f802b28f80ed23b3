/** The stream prefixes of a connection as a list of distinct entries, and as the
    map from prefix to entry that the list stands for. */
module PrefixTable {
  import opened Bytes

  /** A declared prefix: its callback, if any, and the datagram flag. */
  datatype Entry = Entry(prefix: nat, callback: Option<nat>, ready: bool)

  predicate Distinct(es: seq<Entry>) {
    forall i, j | 0 <= i < j < |es| :: es[i].prefix != es[j].prefix
  }

  predicate Has(es: seq<Entry>, prefix: nat) {
    exists i | 0 <= i < |es| :: es[i].prefix == prefix
  }

  function IndexOf(es: seq<Entry>, prefix: nat): (i: nat)
    requires Has(es, prefix)
    ensures i < |es| && es[i].prefix == prefix
    ensures forall j | 0 <= j < i :: es[j].prefix != prefix
    decreases |es|
  {
    if es[0].prefix == prefix then 0
    else
      assert Has(es[1..], prefix) by {
        var i :| 0 <= i < |es| && es[i].prefix == prefix;
        assert es[1..][i - 1].prefix == prefix;
      }
      IndexOf(es[1..], prefix) + 1
  }

  function Declared(es: seq<Entry>, prefix: nat, callback: Option<nat>): seq<Entry> {
    if Has(es, prefix) then es else es + [Entry(prefix, callback, false)]
  }

  function Deleted(es: seq<Entry>, prefix: nat): seq<Entry> {
    if Has(es, prefix) then var i := IndexOf(es, prefix); es[..i] + es[i + 1..] else es
  }

  /** The callbacks told that their prefix goes away: of entries that have one and whose
      stream is still known. */
  function Deregistered(es: seq<Entry>, streams: set<nat>): seq<nat>
    decreases |es|
  {
    if es == [] then []
    else
      (if es[0].callback.Some? && es[0].prefix in streams then [es[0].callback.value] else [])
      + Deregistered(es[1..], streams)
  }

  predicate Told(e: Entry, streams: set<nat>) {
    e.callback.Some? && e.prefix in streams
  }

  /** These are the places, from place i on, of the entries that are told: all of them, in list order. */
  predicate Places(ks: seq<nat>, es: seq<Entry>, i: nat, streams: set<nat>) {
    && (forall j | 0 <= j < |ks| :: i <= ks[j] < |es| && Told(es[ks[j]], streams))
    && (forall j, l | 0 <= j < l < |ks| :: ks[j] < ks[l])
    && (forall k | i <= k < |es| && Told(es[k], streams) :: k in ks)
  }

  predicate CallbacksAt(told: seq<nat>, ks: seq<nat>, es: seq<Entry>) {
    |told| == |ks| && forall j | 0 <= j < |ks| :: ks[j] < |es| && es[ks[j]].callback == Some(told[j])
  }

  lemma {:induction false} DeregisteredFrom(es: seq<Entry>, i: nat, streams: set<nat>) returns (ks: seq<nat>)
    requires i <= |es|
    ensures Places(ks, es, i, streams) && CallbacksAt(Deregistered(es[i..], streams), ks, es)
    decreases |es| - i
  {
    ks := [];
    if i < |es| {
      var rest := DeregisteredFrom(es, i + 1, streams);
      assert es[i..][0] == es[i] && es[i..][1..] == es[i + 1..];
      var told := Deregistered(es[i + 1..], streams);
      if Told(es[i], streams) {
        ks := [i] + rest;
        assert Deregistered(es[i..], streams) == [es[i].callback.value] + told;
        hide Deregistered;
        PlacesCons(rest, ks, es, i, streams);
        CallbacksCons(told, rest, es, i);
      } else {
        ks := rest;
        assert Deregistered(es[i..], streams) == told;
      }
    }
  }

  lemma CallbacksCons(told: seq<nat>, ks: seq<nat>, es: seq<Entry>, i: nat)
    requires CallbacksAt(told, ks, es) && i < |es| && es[i].callback.Some?
    ensures CallbacksAt([es[i].callback.value] + told, [i] + ks, es)
  {
  }

  lemma PlacesCons(rest: seq<nat>, ks: seq<nat>, es: seq<Entry>, i: nat, streams: set<nat>)
    requires i < |es| && Places(rest, es, i + 1, streams) && Told(es[i], streams)
    requires ks == [i] + rest
    ensures Places(ks, es, i, streams)
  {
    hide Told;
    assert |ks| == |rest| + 1 && ks[0] == i && forall j | 0 < j < |ks| :: ks[j] == rest[j - 1];
    forall j, l | 0 <= j < l < |ks| ensures ks[j] < ks[l] {
      assert ks[l] == rest[l - 1];
    }
    forall k | i <= k < |es| && Told(es[k], streams) ensures k in ks {
      if k > i {
        var j :| 0 <= j < |rest| && rest[j] == k;
        assert ks[j + 1] == k;
      }
    }
  }

  /** The callbacks told are those of exactly the entries with a callback and a known stream,
      each once, in the order of the list. */
  lemma DeregisteredIs(es: seq<Entry>, streams: set<nat>) returns (ks: seq<nat>)
    ensures forall j | 0 <= j < |ks| :: ks[j] < |es| && es[ks[j]].callback.Some? && es[ks[j]].prefix in streams
    ensures forall i, j | 0 <= i < j < |ks| :: ks[i] < ks[j]
    ensures forall k | 0 <= k < |es| && es[k].callback.Some? && es[k].prefix in streams :: k in ks
    ensures var told := Deregistered(es, streams);
            |told| == |ks| && forall j | 0 <= j < |ks| :: told[j] == es[ks[j]].callback.value
  {
    ks := DeregisteredFrom(es, 0, streams);
    assert es[0..] == es;
    hide Deregistered;
    assert forall k | 0 <= k < |es| && es[k].callback.Some? && es[k].prefix in streams :: Told(es[k], streams);
  }

  function AsMap(es: seq<Entry>): map<nat, Entry>
    requires Distinct(es)
  {
    map i | 0 <= i < |es| :: es[i].prefix := es[i]
  }

  lemma FindAsMap(es: seq<Entry>, prefix: nat)
    requires Distinct(es)
    ensures Has(es, prefix) <==> prefix in AsMap(es)
    ensures Has(es, prefix) ==> AsMap(es)[prefix] == es[IndexOf(es, prefix)]
  {
  }

  predicate Binds(es: seq<Entry>, m: map<nat, Entry>) {
    && (forall e :: e in es ==> e.prefix in m && m[e.prefix] == e)
    && (forall p :: p in m ==> m[p] in es && m[p].prefix == p)
  }

  lemma AsMapBinds(es: seq<Entry>)
    requires Distinct(es)
    ensures Binds(es, AsMap(es))
  {
  }

  lemma OnlyOneMap(es: seq<Entry>, m: map<nat, Entry>, n: map<nat, Entry>)
    requires Binds(es, m) && Binds(es, n)
    ensures m == n
  {
    assert forall p | p in m :: p in n && m[p] == n[p] by {
      forall p | p in m ensures p in n && m[p] == n[p] { assert m[p] in es; }
    }
    assert forall p | p in n :: p in m by {
      forall p | p in n ensures p in m { assert n[p] in es; }
    }
  }

  lemma BindsOneMore(es: seq<Entry>, d: seq<Entry>, m: map<nat, Entry>, e: Entry)
    requires Binds(es, m) && e.prefix !in m && forall x :: x in d <==> x in es || x == e
    ensures Binds(d, m[e.prefix := e])
  {
  }

  lemma BindsOneLess(es: seq<Entry>, d: seq<Entry>, m: map<nat, Entry>, prefix: nat)
    requires Binds(es, m) && forall x :: x in d <==> x in es && x.prefix != prefix
    ensures Binds(d, m - {prefix})
  {
  }

  /** Declaring adds a binding or changes nothing; the order of the others stays. */
  lemma DeclaredAsMap(es: seq<Entry>, prefix: nat, callback: Option<nat>)
    requires Distinct(es)
    ensures Distinct(Declared(es, prefix, callback)) && es <= Declared(es, prefix, callback)
    ensures AsMap(Declared(es, prefix, callback))
         == if prefix in AsMap(es) then AsMap(es) else AsMap(es)[prefix := Entry(prefix, callback, false)]
  {
    FindAsMap(es, prefix);
    if !Has(es, prefix) {
      var d, e := es + [Entry(prefix, callback, false)], Entry(prefix, callback, false);
      assert d == Declared(es, prefix, callback);
      assert Distinct(d);
      assert forall x :: x in d <==> x in es || x == e;
      hide *;
      AsMapBinds(es);
      AsMapBinds(d);
      BindsOneMore(es, d, AsMap(es), e);
      OnlyOneMap(d, AsMap(d), AsMap(es)[prefix := e]);
    }
  }

  lemma DeletedEntries(es: seq<Entry>, prefix: nat)
    requires Distinct(es) && Has(es, prefix)
    ensures var d := Deleted(es, prefix);
            Distinct(d) && |d| == |es| - 1 && forall e :: e in d <==> e in es && e.prefix != prefix
  {
    var k := IndexOf(es, prefix);
    var d := es[..k] + es[k + 1..];
    hide Has, IndexOf;
    assert forall j | 0 <= j < |d| :: d[j] == es[if j < k then j else j + 1];
    assert es == es[..k] + [es[k]] + es[k + 1..];
    assert forall e :: e in es <==> e in d || e == es[k];
  }

  /** The entries of the other prefixes, in order. */
  function Others(es: seq<Entry>, prefix: nat): seq<Entry> {
    if es == [] then [] else (if es[0].prefix == prefix then [] else [es[0]]) + Others(es[1..], prefix)
  }

  lemma {:induction false} NothingToDelete(es: seq<Entry>, prefix: nat)
    requires !Has(es, prefix)
    ensures Others(es, prefix) == es
  {
    if es != [] {
      assert forall i | 0 <= i < |es[1..]| :: es[1..][i] == es[i + 1];
      assert es[0].prefix != prefix;
      NothingToDelete(es[1..], prefix);
    }
  }

  /** Deleting keeps the other entries in their order. */
  lemma {:induction false} DeletedIsOthers(es: seq<Entry>, prefix: nat)
    requires Distinct(es)
    ensures Deleted(es, prefix) == Others(es, prefix)
    decreases |es|
  {
    if !Has(es, prefix) {
      NothingToDelete(es, prefix);
    } else if es[0].prefix == prefix {
      assert IndexOf(es, prefix) == 0;
      assert forall i | 0 <= i < |es[1..]| :: es[1..][i] == es[i + 1];
      NothingToDelete(es[1..], prefix);
    } else {
      var k, rest := IndexOf(es, prefix), es[1..];
      assert forall i | 0 <= i < |rest| :: rest[i] == es[i + 1];
      assert rest[k - 1].prefix == prefix && k == IndexOf(rest, prefix) + 1;
      DeletedIsOthers(rest, prefix);
      assert es[..k] + es[k + 1..] == [es[0]] + (rest[..k - 1] + rest[k..]);
    }
  }

  /** Deleting removes exactly one binding. */
  lemma DeletedAsMap(es: seq<Entry>, prefix: nat)
    requires Distinct(es)
    ensures Distinct(Deleted(es, prefix)) && AsMap(Deleted(es, prefix)) == AsMap(es) - {prefix}
    ensures |Deleted(es, prefix)| == |es| - if Has(es, prefix) then 1 else 0
  {
    FindAsMap(es, prefix);
    if Has(es, prefix) {
      DeletedEntries(es, prefix);
      hide *;
      var d := Deleted(es, prefix);
      AsMapBinds(es);
      AsMapBinds(d);
      BindsOneLess(es, d, AsMap(es), prefix);
      OnlyOneMap(d, AsMap(d), AsMap(es) - {prefix});
    } else {
      hide *;
      assert prefix !in AsMap(es);
      assert AsMap(es) - {prefix} == AsMap(es);
    }
  }

  datatype Operation = Declare(prefix: nat, callback: Option<nat>) | Delete(prefix: nat)

  function Run(es: seq<Entry>, ops: seq<Operation>): seq<Entry>
    decreases |ops|
  {
    if ops == [] then es
    else
      match ops[0]
      case Declare(p, c) => Run(Declared(es, p, c), ops[1..])
      case Delete(p) => Run(Deleted(es, p), ops[1..])
  }

  function RunMap(m: map<nat, Entry>, ops: seq<Operation>): map<nat, Entry>
    decreases |ops|
  {
    if ops == [] then m
    else
      match ops[0]
      case Declare(p, c) => RunMap(if p in m then m else m[p := Entry(p, c, false)], ops[1..])
      case Delete(p) => RunMap(m - {p}, ops[1..])
  }

  /** Over any declarations and deletions the list stands for the map. */
  lemma {:induction false} RunRefines(es: seq<Entry>, ops: seq<Operation>)
    requires Distinct(es)
    ensures Distinct(Run(es, ops)) && AsMap(Run(es, ops)) == RunMap(AsMap(es), ops)
    decreases |ops|
  {
    if ops != [] {
      hide AsMap, Has, Declared, Deleted, Distinct;
      match ops[0]
      case Declare(p, c) =>
        DeclaredAsMap(es, p, c);
        RunRefines(Declared(es, p, c), ops[1..]);
      case Delete(p) =>
        DeletedAsMap(es, p);
        RunRefines(Deleted(es, p), ops[1..]);
    }
  }
}

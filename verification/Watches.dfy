/** The subscription index of internal/watchmanager/watch_manager.go: three maps that together
    stand for one table from fingerprints to a command and its subscribers. */
module Watches {
  type Chan = nat // the identity of a client channel

  datatype DiceDBCmd = DiceDBCmd(cmd: string, args: seq<string>) {
    function Key(): string {
      if |args| > 0 then args[0] else ""
    }
  }

  const AFFECTED: map<string, set<string>> := map[
    "SET" := {"GET"}, "DEL" := {"GET"}, "RENAME" := {"GET"},
    "ZADD" := {"ZRANGE"}, "PFADD" := {"PFCOUNT"}, "PFMERGE" := {"PFCOUNT"}]

  /** Which commands an event concerns. */
  predicate Affects(event: string, cmd: string) {
    || ((event == "SET" || event == "DEL" || event == "RENAME") && cmd == "GET")
    || (event == "ZADD" && cmd == "ZRANGE")
    || ((event == "PFADD" || event == "PFMERGE") && cmd == "PFCOUNT")
  }

  lemma AffectedAre(event: string, cmd: string)
    ensures event in AFFECTED && cmd in AFFECTED[event] <==> Affects(event, cmd)
  {
  }

  lemma KeyIs(c: DiceDBCmd)
    ensures c.Key() == if c.args == [] then "" else c.args[0]
  {
  }

  // ---------- the table the index stands for ----------

  datatype Entry = Entry(cmd: DiceDBCmd, clients: set<Chan>)

  type Table = map<nat, Entry>

  function Subscribed(t: Table, fp: nat, cmd: DiceDBCmd, chan: Chan): Table {
    t[fp := Entry(cmd, (if fp in t then t[fp].clients else {}) + {chan})]
  }

  function Unsubscribed(t: Table, fp: nat, chan: Chan): Table {
    if fp !in t then t
    else if t[fp].clients - {chan} == {} then t - {fp}
    else t[fp := Entry(t[fp].cmd, t[fp].clients - {chan})]
  }

  /** One message: a client is told to execute the command of a fingerprint. */
  datatype Message = Message(fp: nat, chan: Chan, cmd: DiceDBCmd)

  /** Who must hear of an event: the clients of every affected command whose first argument is the
      key; a command without arguments has the empty key. */
  predicate Concerns(t: Table, event: string, key: string, m: Message) {
    && m.fp in t && m.chan in t[m.fp].clients && m.cmd == t[m.fp].cmd
    && (if m.cmd.args == [] then key == "" else m.cmd.args[0] == key)
    && Affects(event, m.cmd.cmd)
  }

  /** Every message once, and exactly to those concerned. */
  predicate Delivered(t: Table, event: string, key: string, sent: seq<Message>) {
    && (forall i, j :: 0 <= i < j < |sent| ==> sent[i] != sent[j])
    && (forall i :: 0 <= i < |sent| ==> Concerns(t, event, key, sent[i]))
    && forall fp, chan :: fp in t && chan in t[fp].clients && Concerns(t, event, key, Message(fp, chan, t[fp].cmd)) ==>
                            Message(fp, chan, t[fp].cmd) in sent
  }

  /** The table that the commands and the clients of the fingerprints make. */
  ghost function TableOf(cmds: map<nat, DiceDBCmd>, clients: map<nat, set<Chan>>): (t: Table)
    requires clients.Keys == cmds.Keys
    ensures t.Keys == cmds.Keys
  {
    map fp | fp in cmds :: Entry(cmds[fp], clients[fp])
  }

  lemma TableSubscribed(cmds: map<nat, DiceDBCmd>, clients: map<nat, set<Chan>>, fp: nat, cmd: DiceDBCmd, chan: Chan)
    requires clients.Keys == cmds.Keys
    ensures var clients' := clients[fp := (if fp in clients then clients[fp] else {}) + {chan}];
            && clients'.Keys == cmds[fp := cmd].Keys
            && TableOf(cmds[fp := cmd], clients') == Subscribed(TableOf(cmds, clients), fp, cmd, chan)
  {
  }

  lemma TableUnsubscribed(cmds: map<nat, DiceDBCmd>, clients: map<nat, set<Chan>>, fp: nat, chan: Chan)
    requires clients.Keys == cmds.Keys && fp in cmds
    ensures var left := clients[fp] - {chan};
            && Unsubscribed(TableOf(cmds, clients), fp, chan)
               == if left == {} then TableOf(cmds - {fp}, clients - {fp}) else TableOf(cmds, clients[fp := left])
  {
  }

  /** Exactly the fingerprints with a client have a command, which is theirs. */
  ghost predicate Live(clients: map<nat, set<Chan>>, cmds: map<nat, DiceDBCmd>, fingerprint: DiceDBCmd -> nat)
    ensures Live(clients, cmds, fingerprint) ==> clients.Keys == cmds.Keys
  {
    && clients.Keys == cmds.Keys
    && (forall fp :: fp in clients ==> clients[fp] != {})
    && forall fp :: fp in cmds ==> fingerprint(cmds[fp]) == fp
  }

  lemma LiveSubscribed(clients: map<nat, set<Chan>>, cmds: map<nat, DiceDBCmd>, fingerprint: DiceDBCmd -> nat,
                       cmd: DiceDBCmd, chan: Chan)
    requires Live(clients, cmds, fingerprint)
    ensures var fp := fingerprint(cmd);
            Live(clients[fp := (if fp in clients then clients[fp] else {}) + {chan}], cmds[fp := cmd], fingerprint)
  {
    var fp := fingerprint(cmd);
    assert chan in (if fp in clients then clients[fp] else {}) + {chan};
  }

  lemma Overwrite<K, V>(m: map<K, V>, k: K, v: V, w: V)
    ensures m[k := v][k := w] == m[k := w]
  {
  }

  // ---------- the fingerprints filed by key ----------

  type ByKey = map<string, set<nat>>

  /** No inner set is empty, and each fingerprint is filed under its command's key only. */
  ghost predicate Filed(q: ByKey, cmds: map<nat, DiceDBCmd>) {
    && (forall key :: key in q ==> q[key] != {})
    && forall key, fp :: key in q && fp in q[key] <==> fp in cmds && cmds[fp].Key() == key
  }

  function FiledUnder(q: ByKey, key: string, fp: nat): ByKey {
    q[key := (if key in q then q[key] else {}) + {fp}]
  }

  function TakenFrom(q: ByKey, key: string, fp: nat): ByKey {
    if key !in q then q
    else if q[key] - {fp} == {} then q - {key}
    else q[key := q[key] - {fp}]
  }

  /** Filing a fingerprint again is right exactly when it stays under the same key. */
  lemma FileOne(q: ByKey, cmds: map<nat, DiceDBCmd>, fp: nat, cmd: DiceDBCmd)
    requires Filed(q, cmds)
    ensures Filed(FiledUnder(q, cmd.Key(), fp), cmds[fp := cmd]) <==> (fp in cmds ==> cmds[fp].Key() == cmd.Key())
  {
    hide DiceDBCmd.Key;
    var q', cmds' := FiledUnder(q, cmd.Key(), fp), cmds[fp := cmd];
    assert fp in q'[cmd.Key()];
    if fp in cmds && cmds[fp].Key() != cmd.Key() {
      var key := cmds[fp].Key();
      assert key in q && fp in q[key];
      assert key in q' && fp in q'[key] && cmds'[fp].Key() != key;
    } else {
      forall key, f
        ensures key in q' && f in q'[key] <==> f in cmds' && cmds'[f].Key() == key
      {
        assert key in q && f in q[key] <==> f in cmds && cmds[f].Key() == key;
      }
    }
  }

  lemma UnfileOne(q: ByKey, cmds: map<nat, DiceDBCmd>, fp: nat)
    requires Filed(q, cmds) && fp in cmds
    ensures Filed(TakenFrom(q, cmds[fp].Key(), fp), cmds - {fp})
  {
    hide DiceDBCmd.Key;
    var q', cmds' := TakenFrom(q, cmds[fp].Key(), fp), cmds - {fp};
    forall key, f
      ensures key in q' && f in q'[key] <==> f in cmds' && cmds'[f].Key() == key
    {
      assert key in q && f in q[key] <==> f in cmds && cmds[f].Key() == key;
    }
  }

  class Manager {
    const fingerprint: DiceDBCmd -> nat
    var querySubscriptionMap: map<string, set<nat>>
    var tcpSubscriptionMap: map<nat, set<Chan>>
    var fingerprintCmdMap: map<nat, DiceDBCmd>

    /** The domains agree, no inner set is empty, and each fingerprint is filed under its command's key only. */
    ghost predicate Valid()
      reads this
    {
      && Live(tcpSubscriptionMap, fingerprintCmdMap, fingerprint)
      && Filed(querySubscriptionMap, fingerprintCmdMap)
    }

    ghost function View(): Table
      requires Valid()
      reads this
    {
      TableOf(fingerprintCmdMap, tcpSubscriptionMap)
    }

    constructor (fingerprint: DiceDBCmd -> nat)
      ensures Valid() && View() == map[] && this.fingerprint == fingerprint
    {
      this.fingerprint := fingerprint;
      querySubscriptionMap, tcpSubscriptionMap, fingerprintCmdMap := map[], map[], map[];
    }

    /** The index survives exactly when the fingerprint does not already belong to a command
        on another key. */
    method HandleSubscription(watchCmd: DiceDBCmd, chan: Chan)
      requires Valid()
      modifies this
      ensures Valid() <==> old(fingerprint(watchCmd) in fingerprintCmdMap ==>
                                 fingerprintCmdMap[fingerprint(watchCmd)].Key() == watchCmd.Key())
      ensures Valid() ==> View() == Subscribed(old(View()), fingerprint(watchCmd), watchCmd, chan)
    {
      hide DiceDBCmd.Key, Filed, TableOf, Subscribed, Live;
      LiveSubscribed(tcpSubscriptionMap, fingerprintCmdMap, fingerprint, watchCmd, chan);
      TableSubscribed(fingerprintCmdMap, tcpSubscriptionMap, fingerprint(watchCmd), watchCmd, chan);
      var fp, key := fingerprint(watchCmd), watchCmd.Key();
      FileOne(querySubscriptionMap, fingerprintCmdMap, fp, watchCmd);
      if key !in querySubscriptionMap {
        Overwrite(querySubscriptionMap, key, {}, {} + {fp});
        querySubscriptionMap := querySubscriptionMap[key := {}];
      }
      querySubscriptionMap := querySubscriptionMap[key := querySubscriptionMap[key] + {fp}];
      fingerprintCmdMap := fingerprintCmdMap[fp := watchCmd];
      if fp !in tcpSubscriptionMap {
        Overwrite(tcpSubscriptionMap, fp, {}, {} + {chan});
        tcpSubscriptionMap := tcpSubscriptionMap[fp := {}];
      }
      tcpSubscriptionMap := tcpSubscriptionMap[fp := tcpSubscriptionMap[fp] + {chan}];
    }

    method HandleUnsubscription(fp: nat, chan: Chan)
      requires Valid()
      modifies this
      ensures Valid() && View() == Unsubscribed(old(View()), fp, chan)
    {
      hide DiceDBCmd.Key, Filed, TableOf;
      if fp in fingerprintCmdMap {
        TableUnsubscribed(fingerprintCmdMap, tcpSubscriptionMap, fp, chan);
        UnfileOne(querySubscriptionMap, fingerprintCmdMap, fp);
      }
      if fp in tcpSubscriptionMap {
        tcpSubscriptionMap := tcpSubscriptionMap[fp := tcpSubscriptionMap[fp] - {chan}];
        if tcpSubscriptionMap[fp] == {} {
          tcpSubscriptionMap := tcpSubscriptionMap - {fp};
          assert tcpSubscriptionMap == old(tcpSubscriptionMap) - {fp};
        } else {
          return;
        }
      }
      if fp in fingerprintCmdMap {
        var key := fingerprintCmdMap[fp].Key();
        if key in querySubscriptionMap {
          querySubscriptionMap := querySubscriptionMap[key := querySubscriptionMap[key] - {fp}];
          if querySubscriptionMap[key] == {} {
            querySubscriptionMap := querySubscriptionMap - {key};
          }
        }
        fingerprintCmdMap := fingerprintCmdMap - {fp};
        assert querySubscriptionMap == TakenFrom(old(querySubscriptionMap), key, fp);
      }
    }

    method HandleWatchEvent(event: string, affectedKey: string) returns (sent: seq<Message>)
      requires Valid()
      ensures Delivered(View(), event, affectedKey, sent)
    {
      sent := [];
      if affectedKey !in querySubscriptionMap {
        return;
      }
      if event !in AFFECTED {
        return;
      }
      forall cmd
        ensures cmd in AFFECTED[event] <==> Affects(event, cmd)
      {
        AffectedAre(event, cmd);
      }
      sent := NotifyAffected(event, affectedKey, AFFECTED[event]);
    }

    /** The commands filed under the key that the event affects, one after the other. */
    method NotifyAffected(event: string, affectedKey: string, affectedCommands: set<string>)
      returns (sent: seq<Message>)
      requires Valid() && affectedKey in querySubscriptionMap
      requires forall cmd :: cmd in affectedCommands <==> Affects(event, cmd)
      ensures Delivered(View(), event, affectedKey, sent)
    {
      hide Affects;
      sent := [];
      var todo := querySubscriptionMap[affectedKey];
      while todo != {}
        invariant todo <= querySubscriptionMap[affectedKey]
        invariant forall i :: 0 <= i < |sent| ==> sent[i].fp !in todo
        invariant forall i, j :: 0 <= i < j < |sent| ==> sent[i] != sent[j]
        invariant forall i :: 0 <= i < |sent| ==> Concerns(View(), event, affectedKey, sent[i])
        invariant forall fp, chan :: fp in querySubscriptionMap[affectedKey] - todo && chan in tcpSubscriptionMap[fp]
                                       && Concerns(View(), event, affectedKey,
                                                   Message(fp, chan, fingerprintCmdMap[fp])) ==>
                                       Message(fp, chan, fingerprintCmdMap[fp]) in sent
        decreases |todo|
      {
        var fp :| fp in todo;
        todo := todo - {fp};
        var cmdToExecute := fingerprintCmdMap[fp];
        KeyIs(cmdToExecute);
        if cmdToExecute.cmd in affectedCommands {
          var more := NotifyClients(fp, cmdToExecute);
          sent := sent + more;
        }
      }
    }

    /** Sends the command to every client of a fingerprint, once. */
    method NotifyClients(fp: nat, cmd: DiceDBCmd) returns (sent: seq<Message>)
      ensures forall i :: 0 <= i < |sent| ==>
                && sent[i].fp == fp && sent[i].cmd == cmd
                && fp in tcpSubscriptionMap && sent[i].chan in tcpSubscriptionMap[fp]
      ensures forall i, j :: 0 <= i < j < |sent| ==> sent[i] != sent[j]
      ensures fp in tcpSubscriptionMap ==>
                forall chan :: chan in tcpSubscriptionMap[fp] ==> Message(fp, chan, cmd) in sent
    {
      sent := [];
      if fp !in tcpSubscriptionMap {
        return;
      }
      var todo := tcpSubscriptionMap[fp];
      while todo != {}
        invariant todo <= tcpSubscriptionMap[fp]
        invariant forall i :: 0 <= i < |sent| ==>
                    && sent[i].fp == fp && sent[i].cmd == cmd
                    && sent[i].chan in tcpSubscriptionMap[fp] && sent[i].chan !in todo
        invariant forall i, j :: 0 <= i < j < |sent| ==> sent[i] != sent[j]
        invariant forall chan :: chan in tcpSubscriptionMap[fp] - todo ==> Message(fp, chan, cmd) in sent
        decreases |todo|
      {
        var chan :| chan in todo;
        todo := todo - {chan};
        sent := sent + [Message(fp, chan, cmd)];
      }
    }
  }

  // ---------- runs ----------

  datatype Request = Subscribe(cmd: DiceDBCmd, chan: Chan) | Unsubscribe(fp: nat, chan: Chan)

  /** The table after a run of requests from the empty one. */
  function TableAfter(fingerprint: DiceDBCmd -> nat, reqs: seq<Request>): Table {
    if reqs == [] then map[]
    else
      var before := TableAfter(fingerprint, reqs[..|reqs| - 1]);
      match reqs[|reqs| - 1]
      case Subscribe(cmd, chan) => Subscribed(before, fingerprint(cmd), cmd, chan)
      case Unsubscribe(fp, chan) => Unsubscribed(before, fp, chan)
  }

  lemma {:induction false} TableKeys(fingerprint: DiceDBCmd -> nat, reqs: seq<Request>, keyOf: nat -> string)
    requires forall i :: 0 <= i < |reqs| && reqs[i].Subscribe? ==> reqs[i].cmd.Key() == keyOf(fingerprint(reqs[i].cmd))
    ensures var t := TableAfter(fingerprint, reqs); forall fp :: fp in t ==> t[fp].cmd.Key() == keyOf(fp)
  {
    hide DiceDBCmd.Key;
    if reqs != [] {
      TableKeys(fingerprint, reqs[..|reqs| - 1], keyOf);
    }
  }

  /** Where a fingerprint determines the key, the index stands for the table after every run. */
  method Serve(fingerprint: DiceDBCmd -> nat, reqs: seq<Request>, ghost keyOf: nat -> string) returns (m: Manager)
    requires forall i :: 0 <= i < |reqs| && reqs[i].Subscribe? ==> reqs[i].cmd.Key() == keyOf(fingerprint(reqs[i].cmd))
    ensures fresh(m) && m.Valid() && m.View() == TableAfter(fingerprint, reqs)
  {
    hide Live, Filed, DiceDBCmd.Key;
    m := new Manager(fingerprint);
    for i := 0 to |reqs|
      invariant m.Valid() && m.fingerprint == fingerprint
      invariant m.View() == TableAfter(fingerprint, reqs[..i])
    {
      TableKeys(fingerprint, reqs[..i], keyOf);
      assert reqs[..i + 1][..i] == reqs[..i];
      match reqs[i] {
        case Subscribe(cmd, chan) =>
          assert fingerprint(cmd) in m.fingerprintCmdMap ==>
              m.View()[fingerprint(cmd)].cmd == m.fingerprintCmdMap[fingerprint(cmd)];
          m.HandleSubscription(cmd, chan);
        case Unsubscribe(fp, chan) => m.HandleUnsubscription(fp, chan);
      }
    }
    assert reqs[..|reqs|] == reqs;
  }
}

/** D-Bus signal subscriptions: slot lists that share handler cells with the dispatches in progress, subscriptions
    that can be moved and destroyed at any time, callbacks that subscribe and unsubscribe while a signal is delivered,
    and the match rules installed on the bus meanwhile. */
module SignalDispatch {
  import opened Common

  datatype Key = Key(interface: string, member: string, path: Option<string>)

  /** A bus match rule: sender and key determine its text. */
  datatype Rule = Rule(busName: string, key: Key)

  type Callback = nat

  /** A shared handler; emptied when its subscription ends. */
  class HandlerCell {
    var handler: Option<Callback>

    constructor (callback: Callback)
      ensures handler == Some(callback)
    {
      handler := Some(callback);
    }
  }

  class SignalSubscription {
    const conn: Connection
    const key: Key
    const index: nat
    const busName: string
    var active: bool
    /** The cell this subscription created. */
    ghost const cell: HandlerCell

    constructor (conn: Connection, key: Key, index: nat, busName: string, active: bool, ghost cell: HandlerCell)
      ensures this.conn == conn && this.key == key && this.index == index && this.busName == busName
      ensures this.active == active && this.cell == cell
    {
      this.conn, this.key, this.index, this.busName, this.active, this.cell := conn, key, index, busName, active, cell;
    }
  }

  /** What happens on a connection, with cells naming subscriptions across moves. */
  datatype Event =
    | Subscribed(cell: HandlerCell)
    | Ended(cell: HandlerCell)
    | Called(cell: HandlerCell, callback: Callback)

  /** What a callback may do; `which` picks one of the subscription objects the program holds. */
  datatype Action =
    | Subscribe(busName: string, key: Key, callback: Callback)
    | Destroy(which: nat)
    | Move(which: nat)
    | Throw

  /** What each callback does on each turn. */
  type Scripts = (Callback, nat) -> seq<Action>

  /** A subscription object as the program sees it: an active one has a callback. */
  datatype Object = Object(key: Key, busName: string, callback: Option<Callback>)

  /** What an action does to the subscription objects of the program. */
  function Applied(objects: seq<Object>, action: Action): seq<Object> {
    match action
    case Subscribe(busName, key, callback) => objects + [Object(key, busName, Some(callback))]
    case Destroy(which) => if which < |objects| then Silenced(objects, which) else objects
    case Move(which) => if which < |objects| then Silenced(objects, which) + [objects[which]] else objects
    case Throw => objects
  }

  function Silenced(objects: seq<Object>, which: nat): seq<Object>
    requires which < |objects|
  {
    objects[which := objects[which].(callback := None)]
  }

  /** A script up to its first throw. */
  function Played(objects: seq<Object>, script: seq<Action>): seq<Object>
    decreases |script|
  {
    if script == [] || script[0].Throw? then objects else Played(Applied(objects, script[0]), script[1..])
  }

  predicate AllEmpty(slots: seq<HandlerCell?>) {
    forall i | 0 <= i < |slots| :: slots[i] == null
  }

  // ---------- placement, on values ----------

  type Lists = map<Key, seq<HandlerCell?>>
  type Owners = map<HandlerCell, SignalSubscription>

  /** A subscription's index denotes its own slot. */
  ghost predicate OwnSlot(lists: Lists, s: SignalSubscription) {
    s.key in lists && s.index < |lists[s.key]| && lists[s.key][s.index] == s.cell
  }

  /** A list has an occupied slot, and each occupied slot belongs to the subscription of that key and index. */
  ghost predicate SlotsOwned(slots: seq<HandlerCell?>, owner: Owners, key: Key) {
    !AllEmpty(slots) &&
    forall i | 0 <= i < |slots| :: (slots[i] != null ==>
      slots[i] in owner && owner[slots[i]].key == key && owner[slots[i]].index == i)
  }

  ghost predicate WellPlaced(lists: Lists, owner: Owners) {
    (forall c <- owner :: owner[c].cell == c && OwnSlot(lists, owner[c])) &&
    (forall k <- lists :: SlotsOwned(lists[k], owner, k))
  }

  function ListOf(lists: Lists, key: Key): seq<HandlerCell?> {
    if key in lists then lists[key] else []
  }

  lemma PlacedAdded(lists: Lists, owner: Owners, s: SignalSubscription)
    requires WellPlaced(lists, owner) && s.cell !in owner && s.index == |ListOf(lists, s.key)|
    ensures WellPlaced(lists[s.key := ListOf(lists, s.key) + [s.cell]], owner[s.cell := s])
    ensures |ListOf(lists, s.key)| == 0 <==> s.key !in lists
  {
    var lists', owner' := lists[s.key := ListOf(lists, s.key) + [s.cell]], owner[s.cell := s];
    forall c <- owner' ensures owner'[c].cell == c && OwnSlot(lists', owner'[c]) {
      if c != s.cell { assert OwnSlot(lists, owner[c]); }
    }
    forall k <- lists' ensures SlotsOwned(lists'[k], owner', k) {
      if k == s.key { assert lists'[k][s.index] != null; }
    }
  }

  /** Emptying a slot: the list goes when it was the last one. */
  function Emptied(lists: Lists, key: Key, index: nat): Lists
    requires key in lists && index < |lists[key]|
  {
    var slots := lists[key][index := null];
    if AllEmpty(slots) then lists - {key} else lists[key := slots]
  }

  lemma PlacedEmptied(lists: Lists, owner: Owners, s: SignalSubscription)
    requires WellPlaced(lists, owner) && s.cell in owner && owner[s.cell] == s
    ensures OwnSlot(lists, s) && WellPlaced(Emptied(lists, s.key, s.index), owner - {s.cell})
    ensures s.key !in Emptied(lists, s.key, s.index) <==> forall c <- owner :: owner[c].key == s.key ==> c == s.cell
  {
    var lists', owner' := Emptied(lists, s.key, s.index), owner - {s.cell};
    var slots := lists[s.key][s.index := null];
    assert OwnSlot(lists, s);
    forall c <- owner' ensures owner'[c].cell == c && OwnSlot(lists', owner'[c]) {
      assert OwnSlot(lists, owner[c]);
      if owner[c].key == s.key {
        assert owner[c].index != s.index && slots[owner[c].index] == c;
      }
    }
    forall k <- lists' ensures SlotsOwned(lists'[k], owner', k) {
      assert SlotsOwned(lists[k], owner, k);
    }
    if AllEmpty(slots) {
      forall c <- owner | owner[c].key == s.key ensures c == s.cell {
        assert OwnSlot(lists, owner[c]) && slots[owner[c].index] == null;
      }
    } else {
      var i :| 0 <= i < |slots| && slots[i] != null;
      assert SlotsOwned(lists[s.key], owner, s.key);
      var c: HandlerCell := slots[i];
      assert c in owner && owner[c].key == s.key;
    }
  }

  lemma PlacedMoved(lists: Lists, owner: Owners, s: SignalSubscription, t: SignalSubscription)
    requires WellPlaced(lists, owner) && s.cell in owner && owner[s.cell] == s
    requires t.cell == s.cell && t.key == s.key && t.index == s.index
    ensures WellPlaced(lists, owner[s.cell := t])
  {
    var owner' := owner[s.cell := t];
    forall c <- owner' ensures owner'[c].cell == c && OwnSlot(lists, owner'[c]) {
      assert OwnSlot(lists, owner[c]);
    }
    forall k <- lists ensures SlotsOwned(lists[k], owner', k) {
      assert SlotsOwned(lists[k], owner, k);
    }
  }

  ghost function Rules(lists: Lists, busOf: Key -> string): multiset<Rule> {
    multiset(set k <- lists :: Rule(busOf(k), k))
  }

  lemma RulesGrow(lists: Lists, key: Key, slots: seq<HandlerCell?>, busOf: Key -> string)
    ensures Rules(lists[key := slots], busOf) ==
            Rules(lists, busOf) + if key in lists then multiset{} else multiset{Rule(busOf(key), key)}
  {
    var before, after := set k <- lists :: Rule(busOf(k), k), set k <- lists[key := slots] :: Rule(busOf(k), k);
    assert after == before + {Rule(busOf(key), key)};
    if key in lists {
      assert Rule(busOf(key), key) in before;
      assert after == before;
    } else {
      assert Rule(busOf(key), key) !in before;
    }
  }

  lemma RulesShrink(lists: Lists, key: Key, busOf: Key -> string)
    requires key in lists
    ensures Rules(lists - {key}, busOf) == Rules(lists, busOf) - multiset{Rule(busOf(key), key)}
    ensures Rule(busOf(key), key) in Rules(lists, busOf)
  {
    var before, after := set k <- lists :: Rule(busOf(k), k), set k <- lists - {key} :: Rule(busOf(k), k);
    assert Rule(busOf(key), key) in before;
    assert after == before - {Rule(busOf(key), key)};
  }

  /** No rule for the key is installed, under whatever bus name. */
  ghost predicate NoRuleFor(installed: multiset<Rule>, key: Key) {
    forall busName :: Rule(busName, key) !in installed
  }

  lemma RuleInRules(lists: Lists, busOf: Key -> string, key: Key, busName: string)
    ensures Rule(busName, key) in Rules(lists, busOf) <==> key in lists && busName == busOf(key)
  {
    assert Rule(busName, key) in (set k <- lists :: Rule(busOf(k), k)) <==> key in lists && busName == busOf(key);
  }

  /** With one rule per listed key, subscribing under a bus name leaves that name's rule installed exactly when the
      key had no list or the name is the key's, and it leaves one rule per listed key exactly when the key had one or
      the name is the key's. */
  lemma RuleInstalledExactly(lists: Lists, busOf: Key -> string, key: Key, slots: seq<HandlerCell?>, busName: string)
    ensures var after := Rules(lists, busOf) + if key in lists then multiset{} else multiset{Rule(busName, key)};
            (Rule(busName, key) in after <==> key !in lists || busName == busOf(key)) &&
            (after == Rules(lists[key := slots], busOf) <==> key in lists || busName == busOf(key))
  {
    hide Rules;
    RuleInRules(lists, busOf, key, busName);
    RuleInRules(lists[key := slots], busOf, key, busName);
    RulesGrow(lists, key, slots, busOf);
    var after := Rules(lists, busOf) + if key in lists then multiset{} else multiset{Rule(busName, key)};
    assert key !in lists ==> Rule(busName, key) in after;
  }

  /** When the last subscription of a key ends, no rule for the key is left exactly when its bus name is the key's;
      otherwise the rule of the first subscription stays behind. */
  lemma RuleGoneExactly(lists: Lists, busOf: Key -> string, key: Key, busName: string)
    requires key in lists
    ensures var after := Rules(lists, busOf) - multiset{Rule(busName, key)};
            (NoRuleFor(after, key) <==> busName == busOf(key)) &&
            (Rule(busOf(key), key) !in after <==> busName == busOf(key)) &&
            (after == Rules(lists - {key}, busOf) <==> busName == busOf(key))
  {
    hide Rules;
    var before, after := Rules(lists, busOf), Rules(lists, busOf) - multiset{Rule(busName, key)};
    RulesShrink(lists, key, busOf);
    RuleInRules(lists - {key}, busOf, key, busOf(key));
    RuleInRules(lists, busOf, key, busName);
    forall b ensures Rule(b, key) in before <==> b == busOf(key) {
      RuleInRules(lists, busOf, key, b);
    }
    forall b ensures Rule(b, key) !in Rules(lists - {key}, busOf) {
      RuleInRules(lists - {key}, busOf, key, b);
    }
    if busName != busOf(key) { assert Rule(busOf(key), key) in after; }
  }

  // ---------- the connection ----------

  class Connection {
    var signalHandlers: Lists
    /** Match rules on the bus, counted as the bus counts them. */
    var installed: multiset<Rule>
    /** The subscription objects of the program, moved-from and destroyed ones included. */
    var subs: seq<SignalSubscription>
    ghost var cells: set<HandlerCell>
    /** The subscription behind each live cell. */
    ghost var owner: Owners
    ghost var trace: seq<Event>
    /** The one bus name the program means to use for a key. */
    ghost const busOf: Key -> string

    /** An active subscription's index denotes its own slot, every occupied slot belongs to one active subscription,
        lists are never all empty, and a cell is emptied exactly when its subscription is over. */
    ghost predicate Valid()
      reads this, subs, cells
    {
      WellPlaced(signalHandlers, owner) && Alive()
    }

    /** Which subscriptions are active, which cells hold a handler and which have not ended all agree. */
    ghost predicate Alive()
      reads this`owner, this`subs, this`cells, this`trace, subs, cells
    {
      (forall c <- owner :: owner[c] in subs && owner[c].conn == this && c in cells) &&
      (forall i, j | 0 <= i < j < |subs| :: subs[i] != subs[j]) &&
      (forall s <- subs :: s.active <==> (s.cell in owner && owner[s.cell] == s)) &&
      (forall c <- cells :: c.handler.Some? <==> c in owner) &&
      (forall c <- cells :: c in owner <==> Ended(c) !in trace)
    }

    /** Every active subscription uses its key's one bus name. */
    ghost predicate Uniform()
      reads this
    {
      forall c <- owner :: owner[c].busName == busOf(owner[c].key)
    }

    /** A key's rule is installed once when the key has a list, which is when it has an active subscription, and not at
        all otherwise. */
    ghost predicate Balanced()
      reads this
    {
      installed == Rules(signalHandlers, busOf)
    }

    constructor (ghost busOf: Key -> string)
      ensures Valid() && Uniform() && Balanced() && this.busOf == busOf
      ensures signalHandlers == map[] && subs == [] && installed == multiset{}
    {
      signalHandlers, installed, subs := map[], multiset{}, [];
      cells, owner, trace := {}, map[], [];
      this.busOf := busOf;
    }

    /** Subscribes: a new slot at the end of the key's list, and the match rule when the list is new. */
    method SubscribeSignal(busName: string, key: Key, callback: Callback) returns (s: SignalSubscription)
      requires Valid()
      modifies this
      ensures Valid() && fresh(s) && fresh(s.cell) && s.key == key && s.busName == busName && s.active &&
          s.cell.handler == Some(callback)
      ensures subs == old(subs) + [s] && cells == old(cells) + {s.cell} && owner == old(owner)[s.cell := s]
      ensures trace == old(trace) + [Subscribed(s.cell)]
      ensures signalHandlers == old(signalHandlers)[key := ListOf(old(signalHandlers), key) + [s.cell]]
      ensures installed == old(installed) + if key in old(signalHandlers) then multiset{}
                                            else multiset{Rule(busName, key)}
      ensures old(Uniform()) && busName == busOf(key) ==> Uniform()
      ensures old(Balanced()) ==> (Balanced() <==> busName == busOf(key) || key in old(signalHandlers))
      ensures old(Balanced()) ==>
        (Rule(busName, key) in installed <==> busName == busOf(key) || key !in old(signalHandlers))
    {
      hide WellPlaced, Rules, ListOf, Alive;
      var index := |ListOf(signalHandlers, key)|;
      var cell := new HandlerCell(callback);
      s := new SignalSubscription(this, key, index, busName, true, cell);
      assert cell !in owner && s !in subs && cell !in cells && Ended(cell) !in trace by { Untouched(s); }
      PlacedAdded(signalHandlers, owner, s);
      RuleInstalledExactly(signalHandlers, busOf, key, ListOf(signalHandlers, key) + [cell], busName);
      AddSlot(busName, key, cell);
      Enter(s);
    }

    /** Takes a new subscription object into the program's holdings. */
    method Enter(s: SignalSubscription)
      requires Alive() && s.active && s.conn == this && s.cell.handler.Some?
      requires s !in subs && s.cell !in cells && Ended(s.cell) !in trace && s.cell !in owner
      modifies this`subs, this`cells, this`owner, this`trace
      ensures Alive()
      ensures subs == old(subs) + [s] && cells == old(cells) + {s.cell} && owner == old(owner)[s.cell := s]
      ensures trace == old(trace) + [Subscribed(s.cell)]
    {
      subs := subs + [s];
      cells := cells + {s.cell};
      owner := owner[s.cell := s];
      trace := trace + [Subscribed(s.cell)];
    }

    /** Something allocated after a state is in none of its collections. */
    twostate lemma Untouched(new s: SignalSubscription)
      requires old(Alive()) && fresh(s) && fresh(s.cell) && unchanged(this)
      ensures s.cell !in owner && s !in subs && s.cell !in cells && Ended(s.cell) !in trace
    {
    }

    method AddSlot(busName: string, key: Key, cell: HandlerCell)
      requires |ListOf(signalHandlers, key)| == 0 <==> key !in signalHandlers
      modifies this`signalHandlers, this`installed
      ensures signalHandlers == old(signalHandlers)[key := ListOf(old(signalHandlers), key) + [cell]]
      ensures installed == old(installed) + if key in old(signalHandlers) then multiset{}
                                            else multiset{Rule(busName, key)}
    {
      var slots: seq<HandlerCell?> := ListOf(signalHandlers, key) + [cell];
      signalHandlers := signalHandlers[key := slots];
      if |slots| == 1 {
        installed := installed + multiset{Rule(busName, key)};
      }
    }

    /** Ends a subscription: its cell is emptied for every dispatch that still holds it, its slot is freed, and with the
        last occupied slot the list and the match rule go. */
    method Destroy(s: SignalSubscription)
      requires Valid() && s in subs
      modifies this`signalHandlers, this`installed, this`owner, this`trace, cells, s
      ensures Valid() && !s.active && forall t <- subs :: t != s ==> t.active == old(t.active)
      ensures !old(s.active) ==> owner == old(owner) && signalHandlers == old(signalHandlers) && trace == old(trace) &&
                                 installed == old(installed) && forall c <- cells :: c.handler == old(c.handler)
      ensures old(s.active) ==>
        owner == old(owner) - {s.cell} && trace == old(trace) + [Ended(s.cell)] &&
        signalHandlers == Emptied(old(signalHandlers), s.key, s.index) && s.cell.handler == None &&
        (forall c <- cells :: c != s.cell ==> c.handler == old(c.handler)) &&
        installed == old(installed) - if s.key in signalHandlers then multiset{} else multiset{Rule(s.busName, s.key)}
      ensures old(Uniform()) ==> Uniform()
      ensures old(s.active) && old(Balanced()) ==>
        (Balanced() <==> s.key in signalHandlers || s.busName == busOf(s.key))
      ensures old(s.active) && old(Balanced()) && s.key !in signalHandlers ==>
        (NoRuleFor(installed, s.key) <==> s.busName == busOf(s.key)) &&
        (Rule(busOf(s.key), s.key) !in installed <==> s.busName == busOf(s.key))
      ensures old(Uniform()) && old(Balanced()) ==> Balanced()
    {
      hide WellPlaced, Rules, Emptied, ListOf, NoRuleFor, Alive;
      if !s.active { return; }
      Owns(s);
      PlacedEmptied(signalHandlers, owner, s);
      RulesEmptied(signalHandlers, s.key, s.index, busOf);
      RuleGoneExactly(signalHandlers, busOf, s.key, s.busName);
      Retire(s, signalHandlers[s.key][s.index]);
      FreeSlot(s);
    }

    /** Empties the shared cell, so that snapshots held by a dispatch in progress are invalidated as well. */
    method Retire(s: SignalSubscription, cell: HandlerCell)
      requires Alive() && s in subs && s.active && s.cell == cell
      modifies this`owner, this`trace, cell, s
      ensures Alive() && !s.active && cell.handler == None
      ensures owner == old(owner) - {cell} && trace == old(trace) + [Ended(cell)]
    {
      cell.handler := None;
      s.active := false;
      owner := owner - {cell};
      trace := trace + [Ended(cell)];
    }

    /** Moves a subscription: the new object takes over, the old one becomes inert. */
    method MoveSubscription(s: SignalSubscription) returns (t: SignalSubscription)
      requires Valid() && s in subs
      modifies this`subs, this`owner, s
      ensures Valid() && fresh(t) && t.key == s.key && t.index == s.index && t.busName == s.busName && t.cell == s.cell
      ensures t.active == old(s.active) && !s.active && subs == old(subs) + [t]
      ensures owner == if t.active then old(owner)[t.cell := t] else old(owner)
      ensures old(Uniform()) ==> Uniform()
    {
      hide WellPlaced, Alive;
      t := new SignalSubscription(s.conn, s.key, s.index, s.busName, s.active, s.cell);
      assert s.active ==> s.cell in owner && owner[s.cell] == s && s.conn == this by {
        if s.active { Owns(s); }
      }
      if s.active { PlacedMoved(signalHandlers, owner, s, t); }
      TakeOver(s, t);
    }

    lemma Owns(s: SignalSubscription)
      requires Alive() && s in subs && s.active
      ensures s.cell in owner && owner[s.cell] == s && s.conn == this && s.cell in cells
    {
    }

    method TakeOver(s: SignalSubscription, t: SignalSubscription)
      requires Alive() && s in subs && t !in subs && t.cell == s.cell && t.active == s.active && t.conn == s.conn
      modifies this`subs, this`owner, s
      ensures Alive() && !s.active && subs == old(subs) + [t]
      ensures owner == if old(s.active) then old(owner)[t.cell := t] else old(owner)
    {
      if s.active { owner := owner[s.cell := t]; }
      subs := subs + [t];
      s.active := false;
    }

    method FreeSlot(s: SignalSubscription)
      requires s.key in signalHandlers && s.index < |signalHandlers[s.key]|
      modifies this`signalHandlers, this`installed
      ensures signalHandlers == Emptied(old(signalHandlers), s.key, s.index)
      ensures installed == old(installed) - if s.key in signalHandlers then multiset{}
                                            else multiset{Rule(s.busName, s.key)}
    {
      var slots := signalHandlers[s.key];
      slots := slots[s.index := null];
      if AllEmpty(slots) {
        installed := installed - multiset{Rule(s.busName, s.key)};
        signalHandlers := signalHandlers - {s.key};
      } else {
        signalHandlers := signalHandlers[s.key := slots];
      }
    }

    // ---------- delivery ----------

    ghost function Held(): set<SignalSubscription>
      reads this`subs
    {
      set s <- subs
    }

    ghost function ObjectAt(i: nat): Object
      requires i < |subs|
      reads this`subs, this`cells, Held(), cells
    {
      var s := subs[i];
      Object(s.key, s.busName, if s.active && s.cell in cells then s.cell.handler else None)
    }

    ghost function Objects(): (objects: seq<Object>)
      reads this`subs, this`cells, Held(), cells
      ensures |objects| == |subs| && forall i | 0 <= i < |subs| :: objects[i] == ObjectAt(i)
    {
      FirstObjects(|subs|)
    }

    ghost function FirstObjects(n: nat): (objects: seq<Object>)
      requires n <= |subs|
      reads this`subs, this`cells, Held(), cells
      ensures |objects| == n && forall i | 0 <= i < n :: objects[i] == ObjectAt(i)
    {
      if n == 0 then [] else FirstObjects(n - 1) + [ObjectAt(n - 1)]
    }

    /** What running code that subscribes, unsubscribes and moves keeps: everything is still placed, nothing is
        forgotten and nothing is called. */
    twostate predicate Evolved()
      reads this, subs, cells
    {
      Valid() && old(cells) <= cells && (forall c <- cells :: c in old(cells) || fresh(c)) &&
      (forall s <- subs :: s in old(subs) || fresh(s)) &&
      old(trace) <= trace && (forall i | |old(trace)| <= i < |trace| :: !trace[i].Called?) &&
      (forall c <- old(cells) :: c.handler.Some? ==> c.handler == old(c.handler))
    }

    /** The object of a destroyed subscription is the only one that changes. */
    twostate lemma OnlySilenced(which: nat)
      requires old(Alive()) && Alive() && which < |subs| && subs == old(subs) && cells == old(cells)
      requires !subs[which].active && forall s <- subs :: s != subs[which] ==> s.active == old(s.active)
      requires forall c <- cells :: (c != subs[which].cell || !old(subs[which].active)) ==> c.handler == old(c.handler)
      ensures Objects() == Silenced(old(Objects()), which)
    {
      forall i | 0 <= i < |subs| ensures ObjectAt(i) == Silenced(old(Objects()), which)[i] {
        assert old(Objects())[i] == old(ObjectAt(i));
      }
    }

    /** A moved subscription's object falls silent, and the new one is what it was. */
    twostate lemma OnlyMoved(which: nat, new t: SignalSubscription)
      requires old(Alive()) && which < |old(subs)| && subs == old(subs) + [t] && cells == old(cells)
      requires var s := old(subs)[which];
               !s.active && t != s && t.key == s.key && t.busName == s.busName && t.cell == s.cell &&
               t.active == old(s.active)
      requires forall s <- old(subs) :: s != old(subs)[which] ==> s.active == old(s.active)
      requires forall c <- cells :: c.handler == old(c.handler)
      ensures Objects() == Silenced(old(Objects()), which) + [old(Objects())[which]]
    {
      assert old(Objects())[which] == old(ObjectAt(which));
      forall i | 0 <= i < |old(subs)| ensures ObjectAt(i) == Silenced(old(Objects()), which)[i] {
        assert old(Objects())[i] == old(ObjectAt(i));
      }
    }

    twostate lemma OnlyAdded(new s: SignalSubscription, callback: Callback)
      requires old(Alive()) && subs == old(subs) + [s] && cells == old(cells) + {s.cell} && s.active
      requires fresh(s.cell) && s.cell.handler == Some(callback)
      requires forall t <- old(subs) :: t.active == old(t.active)
      requires forall c <- old(cells) :: c.handler == old(c.handler)
      ensures Objects() == old(Objects()) + [Object(s.key, s.busName, Some(callback))]
    {
      forall i | 0 <= i < |old(subs)| ensures ObjectAt(i) == old(Objects())[i] {
        assert old(Objects())[i] == old(ObjectAt(i));
      }
    }

    method Perform(action: Action)
      requires Valid() && !action.Throw?
      modifies this, Held(), cells
      ensures Evolved() && Objects() == Applied(old(Objects()), action)
      ensures UniformAction(busOf, action) && old(Uniform()) ==> Uniform() && (old(Balanced()) ==> Balanced())
    {
      hide WellPlaced, Emptied, ListOf, Rules, NoRuleFor, Connection.Alive, Connection.ObjectAt, Connection.Objects;
      match action
      case Subscribe(busName, key, callback) =>
        var s := SubscribeSignal(busName, key, callback);
        OnlyAdded(s, callback);
      case Destroy(which) =>
        if which < |subs| {
          Destroy(subs[which]);
          OnlySilenced(which);
        }
      case Move(which) =>
        if which < |subs| {
          var t := MoveSubscription(subs[which]);
          OnlyMoved(which, t);
        }
      case Throw =>
    }

    /** A callback runs its actions until it throws; the dispatch swallows the exception. */
    method RunCallback(script: seq<Action>)
      requires Valid()
      modifies this, Held(), cells
      ensures Evolved() && Objects() == Played(old(Objects()), script)
      ensures UniformScript(busOf, script) && old(Uniform()) ==> Uniform() && (old(Balanced()) ==> Balanced())
    {
      hide Valid, Rules, Objects, Applied;
      var i := 0;
      assert script[0..] == script;
      while i < |script|
        invariant 0 <= i <= |script| && Evolved()
        invariant Played(Objects(), script[i..]) == Played(old(Objects()), script)
        invariant UniformScript(busOf, script) && old(Uniform()) ==> Uniform() && (old(Balanced()) ==> Balanced())
      {
        assert script[i..][1..] == script[i + 1..];
        if script[i].Throw? { return; }
        ghost var mid := trace;
        Perform(script[i]);
        assert old(trace) <= mid <= trace;
        i := i + 1;
      }
    }

    /** As `Evolved`, but calls may have been made. */
    twostate predicate Evolution()
      reads this, subs, cells
    {
      Valid() && old(cells) <= cells && (forall c <- cells :: c in old(cells) || fresh(c)) &&
      (forall s <- subs :: s in old(subs) || fresh(s)) && old(trace) <= trace &&
      (forall c <- old(cells) :: c.handler.Some? ==> c.handler == old(c.handler))
    }

    /** Each call since runs the callback its cell held at the start. */
    twostate predicate CallsOwnCallbacks()
      requires old(trace) <= trace
      reads this, cells
    {
      forall i | |old(trace)| <= i < |trace| :: trace[i].Called? ==>
        var e := trace[i]; e.cell in old(cells) && Some(e.callback) == old(e.cell.handler)
    }

    lemma ListFacts(key: Key)
      requires Valid() && key in signalHandlers
      ensures Distinct(signalHandlers[key])
      ensures forall i | 0 <= i < |signalHandlers[key]| :: signalHandlers[key][i] != null ==>
        signalHandlers[key][i] in cells
    {
      assert SlotsOwned(signalHandlers[key], owner, key);
    }

    lemma CellFacts(c: HandlerCell)
      requires Valid() && c in cells
      ensures c.handler.Some? <==> Ended(c) !in trace
    {
    }

    method NoteCall(c: HandlerCell, callback: Callback)
      requires Valid()
      modifies this`trace
      ensures Valid() && trace == old(trace) + [Called(c, callback)]
    {
      trace := trace + [Called(c, callback)];
    }

    /** One slot's turn: a handler that has not ended by now is called, and its script is run. */
    method TakeTurn(handler: HandlerCell?, i: nat, scripts: Scripts)
      requires Valid() && (handler != null ==> handler in cells)
      modifies this, Held(), cells
      ensures Evolution() && CallsOwnCallbacks()
      ensures forall p | |old(trace)| < p < |trace| :: !trace[p].Called?
      ensures if Due(handler, old(trace), |old(trace)|) then CalledAt(handler, trace, |old(trace)|)
              else trace == old(trace)
      ensures Objects() == if Due(handler, old(trace), |old(trace)|)
                             then Played(old(Objects()), scripts(trace[|old(trace)|].callback, i))
                             else old(Objects())
      ensures UniformScripts(busOf, scripts) && old(Uniform()) ==> Uniform() && (old(Balanced()) ==> Balanced())
    {
      hide Valid, Rules, Played, ObjectAt, UniformScript;
      if handler != null { CellFacts(handler); }
      if handler != null && handler.handler.Some? {
        var callback := handler.handler.value;
        NoteCall(handler, callback);
        RunCallback(scripts(callback, i));
      }
    }

    /** Delivers a signal to the list as it is now: callbacks may change it, and each snapshot cell is looked at again
        when its turn comes. `scripts` is what each callback does on each turn; `turns` is the length of the trace when
        each turn comes. */
    method HandleSignal(key: Key, scripts: Scripts)
        returns (handled: bool, ghost turns: seq<nat>)
      requires Valid()
      modifies this, Held(), cells
      ensures Evolution()
      ensures handled <==> key in old(signalHandlers)
      ensures !handled ==> trace == old(trace) && signalHandlers == old(signalHandlers) && Objects() == old(Objects())
      ensures handled ==>
        Delivered(old(signalHandlers)[key], |old(trace)|, trace, turns) && Distinct(old(signalHandlers)[key]) &&
        Objects() == AfterTurns(old(Objects()), old(signalHandlers)[key], trace, turns, scripts)
      ensures CallsOwnCallbacks()
      ensures UniformScripts(busOf, scripts) && old(Uniform()) ==> Uniform() && (old(Balanced()) ==> Balanced())
    {
      hide Valid, Rules, Delivered, AfterTurns, Objects, UniformScripts, Distinct, Uniform, Balanced;
      ghost var objects, tidy, even := Objects(), UniformScripts(busOf, scripts) && Uniform(), Balanced();
      turns := [];
      handled := key in signalHandlers;
      if !handled { return; }
      var handlers := signalHandlers[key];
      ListFacts(key);
      NothingDelivered(trace);
      NoTurns(objects, trace, scripts);
      var i := 0;
      while i < |handlers|
        invariant 0 <= i <= |handlers| && Evolution() && Distinct(handlers)
        invariant forall j | 0 <= j < |handlers| :: handlers[j] != null ==> handlers[j] in old(cells)
        invariant Delivered(handlers[..i], |old(trace)|, trace, turns)
        invariant |turns| == i && CallsOwnCallbacks()
        invariant Objects() == AfterTurns(objects, handlers[..i], trace, turns, scripts)
        invariant tidy ==> UniformScripts(busOf, scripts) && Uniform() && (even ==> Balanced())
      {
        ghost var before := trace;
        turns := turns + [|trace|];
        TakeTurn(handlers[i], i, scripts);
        DeliveredStep(handlers, i, |old(trace)|, before, trace, turns);
        OneMoreTurn(objects, handlers, i, |old(trace)|, before, trace, turns, scripts);
        i := i + 1;
      }
      assert handlers[..|handlers|] == handlers;
    }
  }

  /** The subscription objects after every handler that was due at its turn ran its script. */
  ghost function AfterTurns(objects: seq<Object>, slots: seq<HandlerCell?>, trace: seq<Event>, turns: seq<nat>,
                            scripts: Scripts): seq<Object>
    requires |turns| == |slots|
    decreases |slots|
  {
    if slots == [] then objects
    else
      var i := |slots| - 1;
      var sofar := AfterTurns(objects, slots[..i], trace, turns[..i], scripts);
      if turns[i] <= |trace| && Due(slots[i], trace, turns[i]) && CalledAt(slots[i], trace, turns[i])
        then Played(sofar, scripts(trace[turns[i]].callback, i))
      else sofar
  }

  lemma NoTurns(objects: seq<Object>, trace: seq<Event>, scripts: Scripts)
    ensures AfterTurns(objects, [], trace, [], scripts) == objects
  {
  }

  /** Later events do not change what earlier turns did. */
  lemma {:induction false} TurnsStay(objects: seq<Object>, slots: seq<HandlerCell?>, before: seq<Event>,
                                     after: seq<Event>, turns: seq<nat>, scripts: Scripts)
    requires |turns| == |slots| && before <= after && forall i | 0 <= i < |turns| :: turns[i] <= |before|
    requires forall i | 0 <= i < |turns| :: Due(slots[i], before, turns[i]) ==> CalledAt(slots[i], before, turns[i])
    ensures AfterTurns(objects, slots, after, turns, scripts) == AfterTurns(objects, slots, before, turns, scripts)
    decreases |slots|
  {
    hide Due, Played;
    if slots != [] {
      var i := |slots| - 1;
      TurnsStay(objects, slots[..i], before, after, turns[..i], scripts);
      DueStable(slots[i], before, after, turns[i]);
    }
  }

  lemma OneMoreTurn(objects: seq<Object>, slots: seq<HandlerCell?>, i: nat, start: nat, before: seq<Event>,
                    after: seq<Event>, turns: seq<nat>, scripts: Scripts)
    requires i < |slots| && |turns| == i + 1 && turns[i] == |before| && before <= after
    requires Delivered(slots[..i], start, before, turns[..i])
    requires Due(slots[i], before, |before|) ==> CalledAt(slots[i], after, |before|)
    ensures var sofar := AfterTurns(objects, slots[..i], before, turns[..i], scripts);
            AfterTurns(objects, slots[..i + 1], after, turns, scripts) ==
            if Due(slots[i], before, |before|) then Played(sofar, scripts(after[|before|].callback, i)) else sofar
  {
    hide Due, Played;
    TurnsStay(objects, slots[..i], before, after, turns[..i], scripts);
    DueStable(slots[i], before, after, turns[i]);
    assert slots[..i + 1][..i] == slots[..i];
  }

  ghost predicate UniformScripts(busOf: Key -> string, scripts: Scripts) {
    forall c: Callback, i: nat :: UniformScript(busOf, scripts(c, i))
  }

  // ---------- what a delivery is ----------

  ghost predicate Distinct(slots: seq<HandlerCell?>) {
    forall i, j | 0 <= i < j < |slots| :: slots[i] != null ==> slots[i] != slots[j]
  }

  /** A slot's handler has not ended when the trace was this long. */
  ghost predicate Due(slot: HandlerCell?, trace: seq<Event>, turn: nat)
    requires turn <= |trace|
  {
    slot != null && Ended(slot) !in trace[..turn]
  }

  ghost predicate CalledAt(slot: HandlerCell?, trace: seq<Event>, p: nat) {
    p < |trace| && trace[p].Called? && trace[p].cell == slot
  }

  ghost predicate InOrder(slots: seq<HandlerCell?>, start: nat, trace: seq<Event>, turns: seq<nat>) {
    |turns| == |slots| &&
    (forall i | 0 <= i < |turns| :: start <= turns[i] <= |trace|) &&
    (forall i, j | 0 <= i < j < |turns| ::
       turns[i] <= turns[j] && (Due(slots[i], trace, turns[i]) ==> turns[i] < turns[j]))
  }

  ghost predicate HasTurn(slots: seq<HandlerCell?>, trace: seq<Event>, turns: seq<nat>, p: nat)
    requires |turns| == |slots| && p < |trace|
  {
    exists i | 0 <= i < |turns| :: turns[i] == p && slots[i] == trace[p].cell && Due(slots[i], trace, p)
  }

  /** Turns come in slot order; a turn calls its cell exactly when the cell has not ended by then, and nothing else is
      called. */
  ghost predicate Delivered(slots: seq<HandlerCell?>, start: nat, trace: seq<Event>, turns: seq<nat>) {
    InOrder(slots, start, trace, turns) &&
    (forall i | 0 <= i < |turns| :: Due(slots[i], trace, turns[i]) ==> CalledAt(slots[i], trace, turns[i])) &&
    (forall p | start <= p < |trace| :: trace[p].Called? ==> HasTurn(slots, trace, turns, p))
  }

  lemma NothingDelivered(trace: seq<Event>)
    ensures Delivered([], |trace|, trace, [])
  {
  }

  lemma DueStable(slot: HandlerCell?, before: seq<Event>, after: seq<Event>, turn: nat)
    requires before <= after && turn <= |before|
    ensures Due(slot, before, turn) <==> Due(slot, after, turn)
    ensures CalledAt(slot, before, turn) ==> CalledAt(slot, after, turn)
  {
    assert after[..turn] == before[..turn];
  }

  lemma DeliveredStep(slots: seq<HandlerCell?>, i: nat, start: nat, before: seq<Event>, after: seq<Event>,
                      turns: seq<nat>)
    requires i < |slots| && |turns| == i + 1 && turns[i] == |before| && start <= |before|
    requires Delivered(slots[..i], start, before, turns[..i]) && before <= after
    requires if Due(slots[i], before, |before|) then CalledAt(slots[i], after, |before|) else after == before
    requires forall p | |before| < p < |after| :: !after[p].Called?
    ensures Delivered(slots[..i + 1], start, after, turns)
  {
    hide Due, CalledAt, HasTurn;
    var known, extended := slots[..i], slots[..i + 1];
    forall j | 0 <= j <= i
      ensures turns[j] <= |before| && (Due(slots[j], before, turns[j]) <==> Due(slots[j], after, turns[j]))
      ensures CalledAt(slots[j], before, turns[j]) ==> CalledAt(slots[j], after, turns[j])
    {
      assert j < i ==> turns[..i][j] == turns[j];
      DueStable(slots[j], before, after, turns[j]);
    }
    forall j | 0 <= j < i ensures known[j] == extended[j] == slots[j] && turns[..i][j] == turns[j] {
    }
    TurnsStayOrdered(slots, i, start, before, after, turns);
    forall p | start <= p < |after| && after[p].Called? ensures HasTurn(extended, after, turns, p) {
      CallHasTurn(slots, i, start, before, after, turns, p);
    }
  }

  lemma TurnsStayOrdered(slots: seq<HandlerCell?>, i: nat, start: nat, before: seq<Event>, after: seq<Event>,
                         turns: seq<nat>)
    requires i < |slots| && |turns| == i + 1 && turns[i] == |before| && start <= |before| && before <= after
    requires Delivered(slots[..i], start, before, turns[..i])
    requires forall j | 0 <= j <= i ::
      turns[j] <= |before| && (Due(slots[j], before, turns[j]) <==> Due(slots[j], after, turns[j]))
    ensures InOrder(slots[..i + 1], start, after, turns)
  {
    hide Due, HasTurn;
    forall j | 0 <= j < i ensures Due(slots[j], after, turns[j]) ==> turns[j] < |before| {
      assert slots[..i][j] == slots[j] && turns[..i][j] == turns[j];
    }
    forall j, k | 0 <= j < k <= i
        ensures turns[j] <= turns[k] && (Due(slots[j], after, turns[j]) ==> turns[j] < turns[k]) {
      if k < i { assert turns[..i][j] <= turns[..i][k] && slots[..i][j] == slots[j]; }
    }
  }

  lemma CallHasTurn(slots: seq<HandlerCell?>, i: nat, start: nat, before: seq<Event>, after: seq<Event>,
                    turns: seq<nat>, p: nat)
    requires i < |slots| && |turns| == i + 1 && turns[i] == |before| && start <= |before|
    requires Delivered(slots[..i], start, before, turns[..i]) && before <= after
    requires if Due(slots[i], before, |before|) then CalledAt(slots[i], after, |before|) else after == before
    requires forall p | |before| < p < |after| :: !after[p].Called?
    requires start <= p < |after| && after[p].Called?
    ensures HasTurn(slots[..i + 1], after, turns, p)
  {
    hide InOrder;
    if p < |before| {
      assert HasTurn(slots[..i], before, turns[..i], p);
      var j :| 0 <= j < i && turns[..i][j] == p && slots[..i][j] == before[p].cell && Due(slots[..i][j], before, p);
      assert turns[j] == p && slots[..i + 1][j] == after[p].cell && after[..p] == before[..p];
    } else {
      assert p == |before| && turns[i] == p && slots[..i + 1][i] == after[p].cell && after[..p] == before[..p];
    }
  }

  /** A handler subscribed throughout the dispatch runs exactly once. */
  lemma RunsExactlyOnce(slots: seq<HandlerCell?>, start: nat, trace: seq<Event>, turns: seq<nat>, i: nat)
    requires Delivered(slots, start, trace, turns) && Distinct(slots)
    requires i < |slots| && slots[i] != null && Ended(slots[i]) !in trace
    ensures start <= turns[i] && CalledAt(slots[i], trace, turns[i])
    ensures forall p | start <= p < |trace| :: CalledAt(slots[i], trace, p) ==> p == turns[i]
  {
    assert Due(slots[i], trace, turns[i]);
  }

  /** Calls are made in subscription order. */
  lemma RunsInOrder(slots: seq<HandlerCell?>, start: nat, trace: seq<Event>, turns: seq<nat>, i: nat, j: nat, p: nat,
                    q: nat)
    requires Delivered(slots, start, trace, turns) && Distinct(slots)
    requires i < j < |slots| && start <= p && start <= q
    requires slots[i] != null && slots[j] != null && CalledAt(slots[i], trace, p) && CalledAt(slots[j], trace, q)
    ensures p < q
  {
    assert HasTurn(slots, trace, turns, p) && HasTurn(slots, trace, turns, q);
    var a :| 0 <= a < |turns| && turns[a] == p && slots[a] == trace[p].cell && Due(slots[a], trace, p);
    var b :| 0 <= b < |turns| && turns[b] == q && slots[b] == trace[q].cell && Due(slots[b], trace, q);
    assert a == i && b == j;
  }

  /** A handler runs in the dispatch exactly when it was subscribed at the start and has not ended by its turn; one that
      ends earlier does not run, and one subscribed during the dispatch does not either. */
  lemma RunsExactlyWhen(slots: seq<HandlerCell?>, start: nat, trace: seq<Event>, turns: seq<nat>, c: HandlerCell)
    requires Delivered(slots, start, trace, turns) && Distinct(slots)
    ensures (exists p | start <= p < |trace| :: CalledAt(c, trace, p)) <==>
            (exists i | 0 <= i < |slots| :: slots[i] == c && Ended(c) !in trace[..turns[i]])
  {
    if p :| start <= p < |trace| && CalledAt(c, trace, p) {
      assert HasTurn(slots, trace, turns, p);
      var i :| 0 <= i < |turns| && turns[i] == p && slots[i] == trace[p].cell && Due(slots[i], trace, p);
      assert slots[i] == c && Ended(c) !in trace[..turns[i]];
    }
    if i :| 0 <= i < |slots| && slots[i] == c && Ended(c) !in trace[..turns[i]] {
      assert Due(slots[i], trace, turns[i]);
      assert CalledAt(c, trace, turns[i]);
    }
  }

  // ---------- match rules ----------

  /** With one bus name per key, a key's rule is on the bus, once, exactly when the key has an active subscription. */
  lemma RuleExactlyWhenSubscribed(c: Connection, key: Key)
    requires c.Valid() && c.Balanced()
    ensures c.installed[Rule(c.busOf(key), key)] == if key in c.signalHandlers then 1 else 0
    ensures key in c.signalHandlers <==> exists s <- c.subs :: s.active && s.key == key
  {
    var rules := set k <- c.signalHandlers :: Rule(c.busOf(k), k);
    assert Rule(c.busOf(key), key) in rules <==> key in c.signalHandlers;
    if key in c.signalHandlers {
      var slots := c.signalHandlers[key];
      assert SlotsOwned(slots, c.owner, key);
      var i :| 0 <= i < |slots| && slots[i] != null;
      var cell: HandlerCell := slots[i];
      assert c.owner[cell] in c.subs && c.owner[cell].active;
    }
    if s :| s in c.subs && s.active && s.key == key {
      assert OwnSlot(c.signalHandlers, c.owner[s.cell]);
    }
  }

  /** Two bus names on one key: the second subscription is active but its rule was never installed. */
  method SecondBusNameGetsNoRule(ghost busOf: Key -> string, key: Key, first: string, second: string)
    returns (c: Connection, s: SignalSubscription, t: SignalSubscription)
    requires first != second
    ensures c.Valid() && s.active && t.active && s.key == key && t.key == key && s.busName == first &&
        t.busName == second
    ensures Rule(first, key) in c.installed && Rule(second, key) !in c.installed
  {
    hide WellPlaced, Rules;
    c := new Connection(busOf);
    s := c.SubscribeSignal(first, key, 0);
    t := c.SubscribeSignal(second, key, 1);
    assert s in c.subs && t in c.subs && s.cell in c.owner && t.cell in c.owner;
  }

  predicate UniformAction(busOf: Key -> string, action: Action) {
    action.Subscribe? ==> action.busName == busOf(action.key)
  }

  predicate UniformScript(busOf: Key -> string, script: seq<Action>) {
    forall i | 0 <= i < |script| :: UniformAction(busOf, script[i])
  }

  lemma RulesEmptied(lists: Lists, key: Key, index: nat, busOf: Key -> string)
    requires key in lists && index < |lists[key]|
    ensures Rules(Emptied(lists, key, index), busOf) ==
            Rules(lists, busOf) - if key in Emptied(lists, key, index) then multiset{}
                                  else multiset{Rule(busOf(key), key)}
  {
    RulesShrink(lists, key, busOf);
    RulesKeep(lists, key, lists[key][index := null], busOf);
  }

  lemma RulesKeep(lists: Lists, key: Key, slots: seq<HandlerCell?>, busOf: Key -> string)
    requires key in lists
    ensures Rules(lists[key := slots], busOf) == Rules(lists, busOf)
  {
    RulesGrow(lists, key, slots, busOf);
  }
}

/** The key-binding state machine of `byt::io::binds`: tables of
    bindings from keys to actions or other tables, and a handler that
    walks them one key at a time. Tables are named by their index in the
    handler's list of tables instead of by reference. */
module Binds {

  /** A key of user input, as the terminal library reports it. */
  datatype Key =
    | Backspace | Left | Right | Up | Down | Home | End | PageUp | PageDown
    | Delete | Insert | F(n: nat) | Char(c: char) | Alt(a: char) | Ctrl(k: char) | Null | Esc

  /** What a binding leads to: an action by name, another table, back to
      the root table, or nothing. */
  datatype Next = Action(name: string) | Table(index: nat) | Root | Noop

  datatype Binding = Binding(key: Key, result: Next)

  // ---------------------------------------------------------------------
  // Tables

  /** A table of bindings, searched in the order they were added. */
  class BindingTable {
    var bindings: seq<Binding>
    /** What a key that matches nothing leads to; `consume` never reads
        it. */
    var wildcard: Next

    /** `new()`: no bindings. */
    constructor ()
      ensures bindings == [] && wildcard == Noop
    {
      bindings := [];
      wildcard := Noop;
    }

    /** `add_action(key, action)`: one more binding, last. */
    method AddAction(key: Key, action: string)
      modifies this`bindings
      ensures bindings == old(bindings) + [Binding(key, Action(action))]
    {
      bindings := bindings + [Binding(key, Action(action))];
    }

    /** `add_table(key, table)`: one more binding, last. */
    method AddTable(key: Key, table: nat)
      modifies this`bindings
      ensures bindings == old(bindings) + [Binding(key, Table(table))]
    {
      bindings := bindings + [Binding(key, Table(table))];
    }
  }

  /** The index of the first binding from `k` on whose key is `key`, or
      `|bindings|` when there is none. */
  function FirstMatchFrom(bindings: seq<Binding>, key: Key, k: nat): (r: nat)
    requires k <= |bindings|
    ensures k <= r <= |bindings|
    ensures r < |bindings| ==> bindings[r].key == key
    ensures forall j :: k <= j < r ==> bindings[j].key != key
    decreases |bindings| - k
  {
    if k == |bindings| then |bindings|
    else if bindings[k].key == key then k
    else FirstMatchFrom(bindings, key, k + 1)
  }

  /** The binding `consume` acts on: the first with the key. */
  function FirstMatch(bindings: seq<Binding>, key: Key): (r: nat)
    ensures r <= |bindings|
  {
    FirstMatchFrom(bindings, key, 0)
  }

  /** The scan of `consume` over a table's bindings in order, stopping at
      the first with the key. */
  method FindBinding(bindings: seq<Binding>, key: Key) returns (i: nat)
    ensures i == FirstMatch(bindings, key)
  {
    i := 0;
    while i < |bindings| && bindings[i].key != key
      invariant i <= |bindings|
      invariant FirstMatchFrom(bindings, key, i) == FirstMatch(bindings, key)
    {
      i := i + 1;
    }
  }

  /** Adding a binding never changes the binding a key already finds, so
      a later binding for a key already bound is never reached; a key
      bound for the first time finds the new binding. */
  lemma {:induction false} AddedBindingLast(bindings: seq<Binding>, b: Binding, key: Key, k: nat)
    requires k <= |bindings|
    ensures FirstMatchFrom(bindings, key, k) < |bindings| ==>
      FirstMatchFrom(bindings + [b], key, k) == FirstMatchFrom(bindings, key, k)
    ensures FirstMatchFrom(bindings, key, k) == |bindings| ==>
      FirstMatchFrom(bindings + [b], key, k) == (if b.key == key then |bindings| else |bindings| + 1)
    decreases |bindings| - k
  {
    var bs := bindings + [b];
    if k < |bindings| {
      assert bs[k] == bindings[k];
      if bindings[k].key != key {
        AddedBindingLast(bindings, b, key, k + 1);
      }
    }
  }

  // ---------------------------------------------------------------------
  // The handler

  /** Every `Table` binding of every table names a table in the list. */
  ghost predicate Linked(tables: seq<seq<Binding>>)
  {
    forall i, j :: 0 <= i < |tables| && 0 <= j < |tables[i]| && tables[i][j].result.Table? ==>
      tables[i][j].result.index < |tables|
  }

  /** The handler's state: the table it is in, the last action, and
      whether there is one. */
  datatype HandlerState = HandlerState(current: nat, nextAction: string, hasAction: bool)

  /** The state after acting on a binding's result: an action is
      recorded, a table or the root becomes current, `Noop` leaves the
      state as it was. */
  function Applied(root: nat, st: HandlerState, next: Next): HandlerState
  {
    match next
    case Action(a) => st.(nextAction := a, hasAction := true)
    case Table(t) => st.(current := t)
    case Root => st.(current := root)
    case Noop => st
  }

  /** The state after one key in table `st.current`: the first binding
      with the key decides; with none, nothing changes. */
  function Consumed(tables: seq<seq<Binding>>, root: nat, st: HandlerState, key: Key): HandlerState
    requires st.current < |tables|
  {
    var bs := tables[st.current];
    var i := FirstMatch(bs, key);
    if i == |bs| then st else Applied(root, st, bs[i].result)
  }

  /** What one key does, case by case: a key bound to nothing in the
      current table changes nothing, an action leaves the table as it is,
      a table switch or a return to the root leaves the action as it is;
      and on linked tables the current table stays in the list. */
  lemma ConsumedCases(tables: seq<seq<Binding>>, root: nat, st: HandlerState, key: Key)
    requires Linked(tables) && root < |tables| && st.current < |tables|
    ensures Consumed(tables, root, st, key).current < |tables|
    ensures (forall j :: 0 <= j < |tables[st.current]| ==> tables[st.current][j].key != key) ==>
      Consumed(tables, root, st, key) == st
    ensures Consumed(tables, root, st, key).current != st.current ==>
      Consumed(tables, root, st, key).nextAction == st.nextAction &&
      Consumed(tables, root, st, key).hasAction == st.hasAction
    ensures Consumed(tables, root, st, key).nextAction != st.nextAction ==>
      Consumed(tables, root, st, key).current == st.current && Consumed(tables, root, st, key).hasAction
  {
    var bs := tables[st.current];
    var i := FirstMatch(bs, key);
    if i < |bs| {
      assert tables[st.current][i] == bs[i];
    }
  }

  /** After a key bound to `Root`, the handler is in the root table,
      whatever table it was in. */
  lemma RootKeyReturns(tables: seq<seq<Binding>>, root: nat, st: HandlerState, key: Key, b: nat)
    requires st.current < |tables| && b < |tables[st.current]|
    requires tables[st.current][b] == Binding(key, Root)
    requires forall j :: 0 <= j < b ==> tables[st.current][j].key != key
    ensures Consumed(tables, root, st, key) == st.(current := root)
  {
    FirstMatchIs(tables[st.current], key, b, 0);
  }

  /** A binding with the key and none before it is the first match. */
  lemma {:induction false} FirstMatchIs(bindings: seq<Binding>, key: Key, b: nat, k: nat)
    requires k <= b < |bindings| && bindings[b].key == key
    requires forall j :: k <= j < b ==> bindings[j].key != key
    ensures FirstMatchFrom(bindings, key, k) == b
    decreases b - k
  {
    if k < b {
      FirstMatchIs(bindings, key, b, k + 1);
    }
  }

  /** Takes in keys and walks the tables. */
  class BindHandler {
    /** The bindings of every table, fixed while the handler lives. */
    const tables: seq<seq<Binding>>
    const rootTable: nat
    var currentTable: nat
    var nextAction: string
    var hasAction: bool

    ghost predicate Valid()
      reads this
    {
      Linked(tables) && rootTable < |tables| && currentTable < |tables|
    }

    function State(): HandlerState
      reads this
    {
      HandlerState(currentTable, nextAction, hasAction)
    }

    /** `new(table)`: in `table`, which is also the root, with no action. */
    constructor (tables: seq<seq<Binding>>, table: nat)
      requires Linked(tables) && table < |tables|
      ensures this.tables == tables && rootTable == table && currentTable == table
      ensures nextAction == "" && !hasAction && Valid()
    {
      this.tables := tables;
      rootTable := table;
      currentTable := table;
      nextAction := "";
      hasAction := false;
    }

    /** `consume(key)`: scan the current table in order and act on the
        first binding with the key. */
    method Consume(key: Key)
      requires Valid()
      modifies this`currentTable, this`nextAction, this`hasAction
      ensures State() == Consumed(tables, rootTable, old(State()), key)
      ensures Valid()
    {
      var bindings := tables[currentTable];
      var i := FindBinding(bindings, key);
      if i < |bindings| {
        assert bindings[i].result.Table? ==> bindings[i].result.index < |tables|;
        Apply(bindings[i].result);
      }
    }

    /** The `match` of `consume` on the result of the binding found. */
    method Apply(next: Next)
      requires Valid() && (next.Table? ==> next.index < |tables|)
      modifies this`currentTable, this`nextAction, this`hasAction
      ensures State() == Applied(rootTable, old(State()), next)
      ensures Valid()
    {
      match next {
        case Action(action) =>
          nextAction := action;
          hasAction := true;
        case Table(table) =>
          currentTable := table;
        case Root =>
          currentTable := rootTable;
        case Noop =>
      }
    }
  }
}

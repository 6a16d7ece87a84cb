/*
 * The `todos` slice of the Redux store: its state is a list of todo records
 * that starts empty, and its one case reducer, `addTodo`, pushes a new record
 * built from the action's payload text and a fresh identifier. The identifier
 * that `nanoid()` would generate is supplied with the action.
 */
module TodoSlice {

  datatype Todo = Todo(id: string, text: string, completed: bool)

  /** An `addTodo` action: the payload's text and the identifier chosen for it. */
  datatype AddTodoAction = AddTodoAction(id: string, text: string)

  /** The record `addTodo` builds for an action. */
  function NewTodo(action: AddTodoAction): Todo {
    Todo(action.id, action.text, false)
  }

  /** The slice's state after dispatching `actions`, in order, to the initial state. */
  function Replay(actions: seq<AddTodoAction>): seq<Todo>
    decreases |actions|
  {
    if actions == [] then []
    else Replay(actions[..|actions| - 1]) + [NewTodo(actions[|actions| - 1])]
  }

  /**
   * From the initial state, the list holds one uncompleted record per action,
   * in dispatch order, each carrying its action's text and identifier.
   */
  lemma {:induction false} ReplayContents(actions: seq<AddTodoAction>)
    ensures |Replay(actions)| == |actions|
    ensures forall i :: 0 <= i < |actions| ==>
              Replay(actions)[i] == Todo(actions[i].id, actions[i].text, false)
    decreases |actions|
  {
    if actions != [] {
      ReplayContents(actions[..|actions| - 1]);
    }
  }

  /** Later dispatches never change the records already in the list. */
  lemma {:induction false} ReplayPrefix(actions: seq<AddTodoAction>, later: seq<AddTodoAction>)
    ensures |Replay(actions)| <= |Replay(actions + later)|
    ensures Replay(actions + later)[..|Replay(actions)|] == Replay(actions)
    decreases |later|
  {
    if later == [] {
      assert actions + later == actions;
    } else {
      var earlier := later[..|later| - 1];
      assert (actions + later)[..|actions + later| - 1] == actions + earlier;
      ReplayPrefix(actions, earlier);
    }
  }

  /** The Redux store's `todos` state, which the case reducer mutates in place. */
  class TodoStore {
    var todos: seq<Todo>
    ghost var dispatched: seq<AddTodoAction>

    ghost predicate Valid()
      reads this
    {
      todos == Replay(dispatched)
    }

    /** `initialState: []`. */
    constructor ()
      ensures Valid()
      ensures todos == [] && dispatched == []
    {
      todos := [];
      dispatched := [];
    }

    /** The `addTodo` case reducer: `state.push(newTodo)`. */
    method AddTodo(action: AddTodoAction)
      requires Valid()
      modifies this
      ensures Valid()
      ensures dispatched == old(dispatched) + [action]
      ensures |todos| == |old(todos)| + 1
      ensures todos[..|old(todos)|] == old(todos)
      ensures todos[|todos| - 1] == Todo(action.id, action.text, false)
    {
      todos := todos + [NewTodo(action)];
      dispatched := dispatched + [action];
      assert dispatched[..|dispatched| - 1] == old(dispatched);
    }

    /**
     * The `AddTodo` component's click handler: empty input text is not
     * dispatched; any other text is dispatched as an `addTodo` action.
     */
    method HandleClick(inputText: string, id: string)
      requires Valid()
      modifies this
      ensures Valid()
      ensures inputText == "" ==> todos == old(todos) && dispatched == old(dispatched)
      ensures inputText != "" ==> todos == old(todos) + [Todo(id, inputText, false)]
    {
      if inputText == "" {
        return;
      }
      AddTodo(AddTodoAction(id, inputText));
    }
  }
}

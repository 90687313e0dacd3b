/** The to-do list state of `TodoApp`: the record type, the pure
    descriptions of what each operation does to the sequence of records,
    and the class whose methods update `todos` in place and count the
    writes to browser storage. */
module Todos {
  import Seqs
  import Text

  /** One stored record. `id` is the millisecond clock at creation and
      `createdAt` its ISO-8601 rendering; the list does not keep ids
      distinct. */
  datatype Todo = Todo(id: int, text: string, completed: bool, createdAt: string)

  predicate IsDone(t: Todo) {
    t.completed
  }

  predicate IsActive(t: Todo) {
    !t.completed
  }

  /** The selector `t => t.id !== id` that deletion filters with. */
  function IdDiffers(id: int): Todo -> bool {
    (t: Todo) => t.id != id
  }

  predicate HasId(s: seq<Todo>, id: int) {
    exists k :: 0 <= k < |s| && s[k].id == id
  }

  /** The outcome of a search that may find nothing. */
  datatype Option<T> = None | Some(value: T)

  /** `Array.prototype.find` by id: the position of the first record
      carrying `id`, or None when no record does. */
  function FindIndex(s: seq<Todo>, id: int): (r: Option<nat>)
    ensures r.Some? ==> r.value < |s| && s[r.value].id == id
    ensures r.Some? ==> forall j :: 0 <= j < r.value ==> s[j].id != id
    ensures r.None? <==> !HasId(s, id)
  {
    if s == [] then None
    else if s[0].id == id then Some(0)
    else match FindIndex(s[1..], id)
      case None => None
      case Some(k) => Some(k + 1)
  }

  /** The record with its completion flag inverted. */
  function Flip(t: Todo): (u: Todo)
    ensures u.id == t.id && u.text == t.text && u.createdAt == t.createdAt
    ensures u.completed != t.completed
  {
    t.(completed := !t.completed)
  }

  /** Reference definition of toggling: walk the list and flip the first
      record that carries `id`; the rest of the list is untouched. */
  function Toggled(s: seq<Todo>, id: int): (r: seq<Todo>)
    ensures |r| == |s|
  {
    if s == [] then []
    else if s[0].id == id then [Flip(s[0])] + s[1..]
    else [s[0]] + Toggled(s[1..], id)
  }

  /** Toggling changes exactly the record `find` locates, and nothing when
      no record carries the id. */
  lemma {:induction false} ToggledAt(s: seq<Todo>, id: int)
    ensures FindIndex(s, id).None? ==> Toggled(s, id) == s
    ensures FindIndex(s, id).Some? ==>
      var k := FindIndex(s, id).value; Toggled(s, id) == s[k := Flip(s[k])]
  {
    if s != [] {
      if s[0].id == id {
        assert [Flip(s[0])] + s[1..] == s[0 := Flip(s[0])];
      } else {
        ToggledAt(s[1..], id);
        assert s == [s[0]] + s[1..];
        match FindIndex(s[1..], id)
        case None =>
        case Some(k) => UpdateUnderHead(s[0], s[1..], k, Flip(s[1..][k]));
      }
    }
  }

  /** Updating the tail at `k` is updating the whole list at `k + 1`. */
  lemma UpdateUnderHead(x: Todo, rest: seq<Todo>, k: nat, v: Todo)
    requires k < |rest|
    ensures [x] + rest[k := v] == ([x] + rest)[k + 1 := v]
  {
  }

  /** Toggling the same id twice restores the original list. */
  lemma {:induction false} ToggledTwice(s: seq<Todo>, id: int)
    ensures Toggled(Toggled(s, id), id) == s
  {
    if s != [] {
      if s[0].id == id {
        assert Flip(Flip(s[0])) == s[0];
        assert ([Flip(s[0])] + s[1..])[1..] == s[1..];
      } else {
        ToggledTwice(s[1..], id);
        assert ([s[0]] + Toggled(s[1..], id))[1..] == Toggled(s[1..], id);
      }
    }
  }

  /** Toggling keeps every record's id, text and timestamp and the order of
      the list; only completion flags can differ. */
  lemma {:induction false} ToggledKeepsRecords(s: seq<Todo>, id: int)
    ensures forall k :: 0 <= k < |s| ==>
      Toggled(s, id)[k].id == s[k].id && Toggled(s, id)[k].text == s[k].text &&
      Toggled(s, id)[k].createdAt == s[k].createdAt
  {
    ToggledAt(s, id);
  }

  /** What `deleteTodo` keeps: the records whose id differs, in order. */
  function WithoutId(s: seq<Todo>, id: int): (r: seq<Todo>)
    ensures forall k :: 0 <= k < |r| ==> r[k].id != id
    ensures forall k :: 0 <= k < |s| && s[k].id != id ==> s[k] in r
  {
    Seqs.Filter(s, IdDiffers(id))
  }

  /** Deletion is exactly the order-preserving removal of every record
      with the id: it is a subsequence of the list, holds no record with
      the id, and is as long as the number of records without it. */
  lemma WithoutIdIsRemoval(s: seq<Todo>, id: int)
    ensures Seqs.IsSubsequence(WithoutId(s, id), s)
    ensures |WithoutId(s, id)| == Seqs.Count(s, IdDiffers(id))
    ensures !HasId(WithoutId(s, id), id)
  {
    Seqs.FilterIsSubsequence(s, IdDiffers(id));
    Seqs.FilterLength(s, IdDiffers(id));
  }

  /** Deleting an id that no record carries leaves the list as it is. */
  lemma WithoutAbsentId(s: seq<Todo>, id: int)
    requires !HasId(s, id)
    ensures WithoutId(s, id) == s
  {
    forall t | t in s ensures IdDiffers(id)(t) {
      var k :| 0 <= k < |s| && s[k] == t;
    }
    Seqs.FilterKeepsAll(s, IdDiffers(id));
  }

  /** What `clearCompleted` keeps: the records not yet completed, in order. */
  function ActiveOnly(s: seq<Todo>): (r: seq<Todo>)
    ensures forall k :: 0 <= k < |r| ==> !r[k].completed
    ensures forall k :: 0 <= k < |s| && !s[k].completed ==> s[k] in r
  {
    Seqs.Filter(s, IsActive)
  }

  /** Clearing completed records is an order-preserving removal, and a
      second clear changes nothing. */
  lemma ActiveOnlyIsRemoval(s: seq<Todo>)
    ensures Seqs.IsSubsequence(ActiveOnly(s), s)
    ensures |ActiveOnly(s)| == Seqs.Count(s, IsActive)
    ensures ActiveOnly(ActiveOnly(s)) == ActiveOnly(s)
  {
    Seqs.FilterIsSubsequence(s, IsActive);
    Seqs.FilterLength(s, IsActive);
    Seqs.FilterIdempotent(s, IsActive);
  }

  /** Every stored text is non-empty and carries no surrounding whitespace:
      what `addTodo` guarantees for the records it creates. */
  ghost predicate TextsTrimmed(s: seq<Todo>) {
    forall k :: 0 <= k < |s| ==> s[k].text != [] && Text.IsTrimmed(s[k].text)
  }

  /** Putting a record with trimmed, non-empty text in front of a list
      whose texts are all trimmed keeps them all trimmed. */
  lemma TextsTrimmedCons(t: Todo, s: seq<Todo>)
    requires t.text != [] && Text.IsTrimmed(t.text)
    requires TextsTrimmed(s)
    ensures TextsTrimmed([t] + s)
  {
    forall k | 0 <= k < |[t] + s|
      ensures ([t] + s)[k].text != [] && Text.IsTrimmed(([t] + s)[k].text)
    {
      if k > 0 { assert ([t] + s)[k] == s[k - 1]; }
    }
  }

  class TodoApp {
    /** The records, newest first, as `this.todos` holds them. */
    var todos: seq<Todo>
    /** How many times the list has been written to browser storage. */
    ghost var saves: nat

    /** The list starts as whatever was read back from storage. */
    constructor (loaded: seq<Todo>)
      ensures todos == loaded && saves == 0
    {
      todos := loaded;
      saves := 0;
    }

    /** `addTodo`: blank input (after trimming) is ignored without a save;
        otherwise a new active record with the trimmed text is put at the
        head of the list and the list is saved once. */
    method AddTodo(input: string, now: int, stamp: string) returns (added: bool)
      modifies this
      ensures added <==> !Text.AllWhitespace(input)
      ensures !added ==> todos == old(todos) && saves == old(saves)
      ensures added ==> todos == [Todo(now, Text.Trim(input), false, stamp)] + old(todos)
      ensures added ==> saves == old(saves) + 1
      ensures old(TextsTrimmed(todos)) ==> TextsTrimmed(todos)
    {
      var text := Text.Trim(input);
      if text == [] {
        return false;
      }
      if TextsTrimmed(todos) {
        TextsTrimmedCons(Todo(now, text, false, stamp), todos);
      }
      todos := [Todo(now, text, false, stamp)] + todos;
      saves := saves + 1;
      added := true;
    }

    /** `toggleTodo`: the first record with the id has its flag inverted
        and the list is saved; when no record has the id nothing happens. */
    method ToggleTodo(id: int)
      modifies this
      ensures todos == Toggled(old(todos), id)
      ensures saves == if HasId(old(todos), id) then old(saves) + 1 else old(saves)
      ensures old(TextsTrimmed(todos)) ==> TextsTrimmed(todos)
    {
      ToggledAt(todos, id);
      var found := FindIndex(todos, id);
      if found.Some? {
        var k := found.value;
        todos := todos[k := Flip(todos[k])];
        saves := saves + 1;
      }
    }

    /** `deleteTodo`: every record with the id is dropped and the list is
        saved, whether or not anything was dropped. */
    method DeleteTodo(id: int)
      modifies this
      ensures todos == WithoutId(old(todos), id)
      ensures saves == old(saves) + 1
      ensures old(TextsTrimmed(todos)) ==> TextsTrimmed(todos)
    {
      todos := WithoutId(todos, id);
      saves := saves + 1;
    }

    /** `clearCompleted`: every completed record is dropped and the list is
        saved, whether or not anything was dropped. */
    method ClearCompleted()
      modifies this
      ensures todos == ActiveOnly(old(todos))
      ensures saves == old(saves) + 1
      ensures old(TextsTrimmed(todos)) ==> TextsTrimmed(todos)
    {
      todos := ActiveOnly(todos);
      saves := saves + 1;
    }
  }
}

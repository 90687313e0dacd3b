/** The counting and labelling rule of `updateStats`: how many records
    there are, how many are completed and active, the summary text shown
    under the list, and whether the "clear completed" control is shown. */
module Stats {
  import Seqs
  import Text
  import opened Todos

  datatype Summary = Summary(total: nat, completed: nat, active: nat, caption: string, showClear: bool)

  /** The summary text: "0 items", "1 item", or the total followed by the
      number of active records. It always opens with the rendered total;
      what follows is the noun alone below two records, and the noun with
      the rendered active count from two records on. */
  function Label(total: nat, active: nat): (r: string)
    ensures var n := Text.NatToString(total);
      |n| <= |r| && r[..|n|] == n &&
      r[|n|..] == (if total == 1 then " item"
                   else if total == 0 then " items"
                   else " items (" + Text.NatToString(active) + " active)")
  {
    if total == 0 then "0 items"
    else if total == 1 then "1 item"
    else Text.NatToString(total) + " items (" + Text.NatToString(active) + " active)"
  }

  /** `updateStats` for the list `s`: the completed records are counted,
      the active ones are the rest, and the clear control is shown when any
      record is completed. */
  function Summarize(s: seq<Todo>): (r: Summary)
    ensures r.total == |s| && r.active + r.completed == r.total
    ensures r.caption == Label(r.total, r.active)
  {
    var completed := |Seqs.Filter(s, IsDone)|;
    var active := |s| - completed;
    Summary(|s|, completed, active, Label(|s|, active), completed > 0)
  }

  /** The counts are what their names say: the number of completed and of
      active records. The clear control is shown exactly when some record
      is completed. */
  lemma SummarizeCounts(s: seq<Todo>)
    ensures Summarize(s).completed == Seqs.Count(s, IsDone)
    ensures Summarize(s).active == Seqs.Count(s, IsActive)
    ensures Summarize(s).showClear <==> exists k :: 0 <= k < |s| && s[k].completed
  {
    Seqs.FilterLength(s, IsDone);
    Seqs.CountComplement(s, IsDone, IsActive);
    Seqs.CountZero(s, IsDone);
    if exists k :: 0 <= k < |s| && s[k].completed {
      var k :| 0 <= k < |s| && s[k].completed;
      assert s[k] in s && IsDone(s[k]);
    }
    if exists t :: t in s && IsDone(t) {
      var t :| t in s && IsDone(t);
      var k :| 0 <= k < |s| && s[k] == t;
    }
  }

  /** The number in front of a label. */
  function LeadingNumber(caption: string): nat
  {
    Text.DigitsValue(Text.DigitPrefix(caption))
  }

  /** Every label starts with the total it reports. */
  lemma LabelShowsTotal(total: nat, active: nat)
    ensures LeadingNumber(Label(total, active)) == total
  {
    var caption := Label(total, active);
    if total <= 1 {
      var digit := Text.NatToString(total);
      assert caption == digit + caption[1..];
      Text.DigitPrefixOfDigitsThen(digit, caption[1..]);
      Text.NatToStringRoundTrip(total);
    } else {
      var digits := Text.NatToString(total);
      var rest := " items (" + Text.NatToString(active) + " active)";
      assert caption == digits + rest;
      Text.DigitPrefixOfDigitsThen(digits, rest);
      Text.NatToStringRoundTrip(total);
    }
  }

  /** From two records on, the label also reports the active count, as the
      number that follows the total and the word "items (". */
  lemma LabelShowsActive(total: nat, active: nat)
    requires total >= 2
    ensures |Text.NatToString(total)| + 8 <= |Label(total, active)|
    ensures LeadingNumber(Label(total, active)[|Text.NatToString(total)| + 8..]) == active
  {
    var n := |Text.NatToString(total)|;
    var digits := Text.NatToString(active);
    var caption := Label(total, active);
    DropWord(" items (", digits + " active)", caption[n..]);
    assert caption[n + 8..] == caption[n..][8..];
    Text.DigitPrefixOfDigitsThen(digits, " active)");
    Text.NatToStringRoundTrip(active);
  }

  /** Dropping the leading word of a text leaves what followed it. */
  lemma DropWord(word: string, rest: string, t: string)
    requires t == word + rest
    ensures t[|word|..] == rest
  {
  }

  /** The singular label is shown for exactly one record. */
  lemma LabelSingular(total: nat, active: nat)
    ensures Label(total, active) == "1 item" <==> total == 1
  {
    if Label(total, active) == "1 item" {
      LabelShowsTotal(total, active);
      assert Text.DigitPrefix("1 item") == "1" by {
        Text.DigitPrefixOfDigitsThen("1", " item");
      }
    }
  }

  /** After clearing, nothing is completed, the control is hidden, and the
      total is the active count from before. */
  lemma SummaryAfterClear(s: seq<Todo>)
    ensures Summarize(ActiveOnly(s)).completed == 0
    ensures !Summarize(ActiveOnly(s)).showClear
    ensures Summarize(ActiveOnly(s)).total == Summarize(s).active
  {
    ActiveOnlyIsRemoval(s);
    SummarizeCounts(s);
    SummarizeCounts(ActiveOnly(s));
  }

  /** Adding an active record raises the total and the active count by
      one and leaves the completed count as it was. */
  lemma SummaryAfterAdd(t: Todo, s: seq<Todo>)
    requires !t.completed
    ensures Summarize([t] + s).total == Summarize(s).total + 1
    ensures Summarize([t] + s).active == Summarize(s).active + 1
    ensures Summarize([t] + s).completed == Summarize(s).completed
  {
    assert ([t] + s)[1..] == s;
    SummarizeCounts(s);
    SummarizeCounts([t] + s);
  }

  /** Toggling a present id moves exactly one record between the completed
      and active counts; the total never changes. */
  lemma SummaryAfterToggle(s: seq<Todo>, id: int)
    ensures Summarize(Toggled(s, id)).total == Summarize(s).total
    ensures HasId(s, id) ==>
      Summarize(Toggled(s, id)).completed == Summarize(s).completed + 1 ||
      Summarize(Toggled(s, id)).completed + 1 == Summarize(s).completed
    ensures !HasId(s, id) ==> Summarize(Toggled(s, id)).completed == Summarize(s).completed
  {
    SummarizeCounts(s);
    SummarizeCounts(Toggled(s, id));
    ToggledDoneCount(s, id);
  }

  /** The number of completed records changes by exactly one when a record
      is toggled, and not at all when the id is absent. */
  lemma {:induction false} ToggledDoneCount(s: seq<Todo>, id: int)
    ensures HasId(s, id) ==>
      Seqs.Count(Toggled(s, id), IsDone) == Seqs.Count(s, IsDone) + 1 ||
      Seqs.Count(Toggled(s, id), IsDone) + 1 == Seqs.Count(s, IsDone)
    ensures !HasId(s, id) ==> Seqs.Count(Toggled(s, id), IsDone) == Seqs.Count(s, IsDone)
  {
    if s != [] {
      var t := Toggled(s, id);
      if s[0].id == id {
        assert t[0] == Flip(s[0]) && t[1..] == s[1..];
        assert HasId(s, id) by { assert s[0].id == id; }
      } else {
        ToggledDoneCount(s[1..], id);
        assert t[0] == s[0] && t[1..] == Toggled(s[1..], id);
        assert HasId(s, id) <==> HasId(s[1..], id) by {
          if HasId(s, id) {
            var k :| 0 <= k < |s| && s[k].id == id;
            assert s[1..][k - 1].id == id;
          }
          if HasId(s[1..], id) {
            var k :| 0 <= k < |s[1..]| && s[1..][k].id == id;
            assert s[k + 1].id == id;
          }
        }
      }
    }
  }

  /** Worked example: adding "Buy milk" to an empty list gives one active
      record and the label "1 item". */
  method ScenarioFirstAdd()
  {
    var app := new TodoApp([]);
    Text.TrimFixesTrimmed("Buy milk");
    var added := app.AddTodo("Buy milk", 1000, "1970-01-01T00:00:01.000Z");
    assert added && app.todos == [Todo(1000, "Buy milk", false, "1970-01-01T00:00:01.000Z")];
    assert Summarize(app.todos).caption == "1 item";
  }

  /** Worked example: with two records, one of them completed, clearing
      leaves only the active one and the label "1 item". */
  method ScenarioClear()
  {
    var dog := Todo(2000, "Walk dog", false, "1970-01-01T00:00:02.000Z");
    var milk := Todo(1000, "Buy milk", true, "1970-01-01T00:00:01.000Z");
    var app := new TodoApp([dog, milk]);
    assert Summarize(app.todos).showClear by {
      SummarizeCounts(app.todos);
      assert app.todos[1].completed;
    }
    app.ClearCompleted();
    assert app.todos == [dog] by {
      assert [dog, milk][1..] == [milk] && [milk][1..] == [];
      assert Seqs.Filter([milk], IsActive) == [];
    }
    assert Summarize(app.todos).caption == "1 item";
  }
}

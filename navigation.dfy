/**
 * The navigation state shared by the two manual-selection tools: an index
 * into the sorted list of image names and the list of names selected so far.
 * The functions here state what each button does to that state; the classes
 * in Selection and ImageSelection update their fields accordingly.
 */
module Navigation {
  import opened Wrappers
  import opened Sequences

  /** `current_index` and `selected_images`. */
  datatype Cursor = Cursor(index: int, selected: seq<string>)

  /** Which key or button was pressed. */
  datatype Action = NextAction | PrevAction | SelectAction

  /** The state at start-up: `current_index = 0`, `selected_images = []`. */
  function Start(): Cursor
  {
    Cursor(0, [])
  }

  /** `next_image`: advance unless the index is already at the last name. */
  function Next(files: seq<string>, c: Cursor): (r: Cursor)
    ensures r.selected == c.selected
    ensures c.index <= r.index <= c.index + 1
    ensures Inv(files, c) ==> Inv(files, r)
  {
    if c.index < |files| - 1 then c.(index := c.index + 1) else c
  }

  /** `prev_image`: step back unless the index is already at 0. */
  function Prev(c: Cursor): (r: Cursor)
    ensures r.selected == c.selected
    ensures c.index - 1 <= r.index <= c.index
    ensures 0 <= c.index ==> 0 <= r.index
  {
    if c.index > 0 then c.(index := c.index - 1) else c
  }

  /**
   * The guarded `select_image` of selection.py: when the index is in range and
   * its name not yet selected, append the name and advance; otherwise nothing.
   */
  function Select(files: seq<string>, c: Cursor): (r: Cursor)
    ensures c.selected <= r.selected && |r.selected| <= |c.selected| + 1
    ensures |r.selected| == |c.selected| + 1 ==> 0 <= c.index < |files| && r.selected[|c.selected|] == files[c.index]
  {
    if 0 <= c.index < |files| && files[c.index] !in c.selected then
      Next(files, c.(selected := c.selected + [files[c.index]]))
    else c
  }

  /**
   * Python's `image_files[current_index]`: a negative index counts from the
   * end, and one outside `-len .. len - 1` raises IndexError (None).
   */
  function PyIndex(files: seq<string>, i: int): (r: Option<string>)
    ensures r.Some? <==> -|files| <= i < |files|
    ensures 0 <= i < |files| ==> r == Some(files[i])
  {
    if 0 <= i < |files| then Some(files[i])
    else if -|files| <= i < 0 then Some(files[i + |files|])
    else None
  }

  /**
   * The unguarded `select_image` of image_selection.py: None when indexing
   * raises, in which case nothing has changed.
   */
  function SelectUnguarded(files: seq<string>, c: Cursor): (r: Option<Cursor>)
    ensures r.None? <==> !(-|files| <= c.index < |files|)
    ensures r.Some? ==> c.selected <= r.value.selected && |r.value.selected| <= |c.selected| + 1
  {
    match PyIndex(files, c.index)
    case None => None
    case Some(name) =>
      if name in c.selected then Some(c)
      else Some(Next(files, c.(selected := c.selected + [name])))
  }

  /** One key press or button click on selection.py's window. */
  function Apply(files: seq<string>, c: Cursor, a: Action): Cursor
  {
    match a
    case NextAction => Next(files, c)
    case PrevAction => Prev(c)
    case SelectAction => Select(files, c)
  }

  /** A sequence of presses, in order. */
  function Run(files: seq<string>, c: Cursor, actions: seq<Action>): Cursor
    decreases |actions|
  {
    if |actions| == 0 then c else Run(files, Apply(files, c, actions[0]), actions[1..])
  }

  /**
   * What the tools keep true: the index lies on a name of the list (or is 0
   * for an empty list), and the selection is a duplicate-free list of names
   * of the list.
   */
  ghost predicate Inv(files: seq<string>, c: Cursor)
  {
    && 0 <= c.index
    && (c.index < |files| || c.index == 0)
    && NoDuplicates(c.selected)
    && (forall x :: x in c.selected ==> x in files)
  }

  lemma StartInv(files: seq<string>)
    ensures Inv(files, Start())
  {
  }

  /** Appending a name that is absent keeps a list free of duplicates. */
  lemma AppendFresh(s: seq<string>, x: string)
    requires NoDuplicates(s) && x !in s
    ensures NoDuplicates(s + [x])
  {
    forall i, j | 0 <= i < j < |s + [x]| ensures (s + [x])[i] != (s + [x])[j] {
      if j == |s| {
        assert (s + [x])[i] == s[i];
      } else {
        assert (s + [x])[i] == s[i] && (s + [x])[j] == s[j];
      }
    }
  }

  /** Every press keeps the invariant. */
  lemma ApplyInv(files: seq<string>, c: Cursor, a: Action)
    requires Inv(files, c)
    ensures Inv(files, Apply(files, c, a))
  {
    if a == SelectAction && 0 <= c.index < |files| && files[c.index] !in c.selected {
      AppendFresh(c.selected, files[c.index]);
    }
  }

  /** From any state that satisfies it, any sequence of presses keeps the invariant. */
  lemma {:induction false} RunInv(files: seq<string>, c: Cursor, actions: seq<Action>)
    requires Inv(files, c)
    ensures Inv(files, Run(files, c, actions))
    decreases |actions|
  {
    if |actions| > 0 {
      ApplyInv(files, c, actions[0]);
      RunInv(files, Apply(files, c, actions[0]), actions[1..]);
    }
  }

  /**
   * From start-up, after any sequence of presses on a non-empty list the index
   * lies in `0 .. len - 1`, the selection has no duplicates, holds only names
   * of the list and is never longer than it.
   */
  lemma SessionBounds(files: seq<string>, actions: seq<Action>)
    ensures var c := Run(files, Start(), actions);
      && 0 <= c.index && (|files| > 0 ==> c.index <= |files| - 1)
      && NoDuplicates(c.selected)
      && (forall x :: x in c.selected ==> x in files)
      && |c.selected| <= |files|
  {
    StartInv(files);
    RunInv(files, Start(), actions);
    var c := Run(files, Start(), actions);
    DistinctDrawnIsBounded(c.selected, files);
  }

  /** Nothing is ever deselected: each press extends the selection or leaves it. */
  lemma {:induction false} RunExtendsSelection(files: seq<string>, c: Cursor, actions: seq<Action>)
    ensures c.selected <= Run(files, c, actions).selected
    decreases |actions|
  {
    if |actions| > 0 {
      var d := Apply(files, c, actions[0]);
      assert c.selected <= d.selected;
      RunExtendsSelection(files, d, actions[1..]);
    }
  }

  /** Selecting an already selected name changes neither the list nor the index. */
  lemma SelectRepeat(files: seq<string>, c: Cursor)
    requires 0 <= c.index < |files| && files[c.index] in c.selected
    ensures Select(files, c) == c
  {
  }

  /**
   * Selecting a fresh name appends exactly that name and moves to the next
   * image, or stays on the last one; the selection grows by one.
   */
  lemma SelectFresh(files: seq<string>, c: Cursor)
    requires 0 <= c.index < |files| && files[c.index] !in c.selected
    ensures Select(files, c).selected == c.selected + [files[c.index]]
    ensures |Select(files, c).selected| == |c.selected| + 1
    ensures Select(files, c).index == if c.index < |files| - 1 then c.index + 1 else c.index
  {
  }

  /** Out of range, the guarded select does nothing. */
  lemma SelectOutOfRange(files: seq<string>, c: Cursor)
    requires !(0 <= c.index < |files|)
    ensures Select(files, c) == c
  {
  }

  /** Within the list, one step back undoes one step forward. */
  lemma PrevUndoesNext(files: seq<string>, c: Cursor)
    requires 0 <= c.index < |files| - 1
    ensures Prev(Next(files, c)) == c
  {
  }

  /** Within the list, one step forward undoes one step back. */
  lemma NextUndoesPrev(files: seq<string>, c: Cursor)
    requires 0 < c.index < |files|
    ensures Next(files, Prev(c)) == c
  {
  }

  /** Next and Prev leave the selection alone; at the ends of the list they change nothing. */
  lemma MovesAtEnds(files: seq<string>, c: Cursor)
    ensures Next(files, c).selected == c.selected && Prev(c).selected == c.selected
    ensures c.index >= |files| - 1 ==> Next(files, c) == c
    ensures c.index <= 0 ==> Prev(c) == c
  {
  }

  /**
   * The unguarded select of image_selection.py raises only on an empty list
   * once the invariant holds, and otherwise does what the guarded one does.
   */
  lemma UnguardedAgreesWithGuarded(files: seq<string>, c: Cursor)
    requires Inv(files, c)
    ensures SelectUnguarded(files, c).None? <==> |files| == 0
    ensures SelectUnguarded(files, c).Some? ==> SelectUnguarded(files, c).value == Select(files, c)
  {
  }

  /** Without the invariant, a negative index reads a name from the end of the list instead of raising. */
  lemma UnguardedNegativeIndex()
    ensures SelectUnguarded(["a.jpg", "b.jpg"], Cursor(-1, [])) == Some(Cursor(0, ["b.jpg"]))
  {
    var files := ["a.jpg", "b.jpg"];
    assert PyIndex(files, -1) == Some("b.jpg");
    var empty: seq<string> := [];
    assert empty + ["b.jpg"] == ["b.jpg"];
    assert Next(files, Cursor(-1, ["b.jpg"])) == Cursor(0, ["b.jpg"]);
  }
}

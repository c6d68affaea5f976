/** The application routes and the path of a group's task list. */
module AppRoutes {
  import opened Wrappers

  /** The route of the group list. */
  const Groups: string := "/groups"

  /** The route of one group's task list; `:group` stands for the group name. */
  const Tasks: string := "/groups/:group/tasks"

  /** The placeholder segment `composeTaskListPath` replaces. */
  const GroupSegment: string := "/:group/"

  /** `pattern` occurs in `s` at position `i`. */
  predicate OccursAt(s: string, pattern: string, i: int) {
    0 <= i && i + |pattern| <= |s| && s[i..i + |pattern|] == pattern
  }

  /** The first position at or after `from` where `pattern` occurs in `s`, None when it does not. */
  function IndexOfFrom(s: string, pattern: string, from: nat): (r: Option<nat>)
    ensures r.Some? ==> from <= r.value && OccursAt(s, pattern, r.value)
    ensures r.Some? ==> forall j :: from <= j < r.value ==> !OccursAt(s, pattern, j)
    ensures r.None? ==> forall j :: from <= j ==> !OccursAt(s, pattern, j)
    decreases |s| - from
  {
    if from + |pattern| > |s| then None
    else if s[from..from + |pattern|] == pattern then Some(from)
    else IndexOfFrom(s, pattern, from + 1)
  }

  /**
   * `s` with the first occurrence of `pattern` replaced by `replacement`,
   * taken literally; `s` itself when `pattern` does not occur.
   */
  function ReplaceFirst(s: string, pattern: string, replacement: string): (r: string)
    ensures IndexOfFrom(s, pattern, 0).None? ==> r == s
    ensures IndexOfFrom(s, pattern, 0).Some? ==>
      var i := IndexOfFrom(s, pattern, 0).value;
      r == s[..i] + replacement + s[i + |pattern|..]
  {
    match IndexOfFrom(s, pattern, 0)
    case None => s
    case Some(i) => s[..i] + replacement + s[i + |pattern|..]
  }

  /** When `pattern` occurs first at `i`, that occurrence is the one replaced. */
  lemma {:induction false} ReplaceFirstOccurrence(s: string, pattern: string, replacement: string, i: nat)
    requires OccursAt(s, pattern, i) && forall j :: 0 <= j < i ==> !OccursAt(s, pattern, j)
    ensures ReplaceFirst(s, pattern, replacement) == s[..i] + replacement + s[i + |pattern|..]
  {
    assert IndexOfFrom(s, pattern, 0) == Some(i);
  }

  /** When `pattern` does not occur, nothing is replaced. */
  lemma {:induction false} ReplaceFirstAbsent(s: string, pattern: string, replacement: string)
    requires forall i :: !OccursAt(s, pattern, i)
    ensures ReplaceFirst(s, pattern, replacement) == s
  {
    assert IndexOfFrom(s, pattern, 0).None?;
  }

  /** The placeholder segment first occurs in the task list route right after the group list route. */
  lemma GroupSegmentPosition()
    ensures IndexOfFrom(Tasks, GroupSegment, 0) == Some(|Groups|)
  {
    var p := GroupSegment;
    assert Tasks[0..8][1] != p[1];
    assert Tasks[1..9][0] != p[0];
    assert Tasks[2..10][0] != p[0];
    assert Tasks[3..11][0] != p[0];
    assert Tasks[4..12][0] != p[0];
    assert Tasks[5..13][0] != p[0];
    assert Tasks[6..14][0] != p[0];
    assert Tasks[7..15] == p;
    assert IndexOfFrom(Tasks, p, 6) == Some(7);
    assert IndexOfFrom(Tasks, p, 5) == Some(7);
    assert IndexOfFrom(Tasks, p, 4) == Some(7);
    assert IndexOfFrom(Tasks, p, 3) == Some(7);
    assert IndexOfFrom(Tasks, p, 2) == Some(7);
    assert IndexOfFrom(Tasks, p, 1) == Some(7);
  }

  /**
   * The path showing the tasks of `group`: the task list route with its
   * group placeholder replaced by the name. A name with `$` is excluded,
   * because `replace` would read it as a replacement pattern.
   */
  function ComposeTaskListPath(group: string): (r: string)
    requires '$' !in group
    ensures r == Groups + "/" + group + "/tasks"
    ensures |r| > |Groups| && r[..|Groups| + 1] == Groups + "/"
    ensures |r| >= 6 && r[|r| - 6..] == "/tasks"
    ensures |Groups| + 1 <= |r| - 6 && r[|Groups| + 1..|r| - 6] == group
  {
    GroupSegmentPosition();
    ReplaceFirst(Tasks, GroupSegment, "/" + group + "/")
  }

  /** Different groups get different paths. */
  lemma {:induction false} ComposeTaskListPathInjective(g1: string, g2: string)
    requires '$' !in g1 && '$' !in g2
    requires ComposeTaskListPath(g1) == ComposeTaskListPath(g2)
    ensures g1 == g2
  {
    var r := ComposeTaskListPath(g1);
    assert r[|Groups| + 1..|r| - 6] == g1;
    assert r[|Groups| + 1..|r| - 6] == g2;
  }
}

/**
 Issues reported with a configuration revision: trees of texts, lists and objects, the recursive text
 search that recognises an apply without a difference, and the summary shown to a user.
 */
module RevisionIssues {
  import opened Text

  /** An issue value; an object lists its entries in key order. */
  datatype Issue =
    | Null
    | Words(text: string)
    | List(values: seq<Issue>)
    | Object(entries: seq<Entry>)
    | Bool(flag: bool)
    | Number(digits: string)

  datatype Entry = Entry(key: string, value: Issue)

  /** Some nested text contains `needle`. */
  predicate ContainsText(issue: Issue, needle: string) {
    match issue
    case Words(text) => Contains(text, needle)
    case List(values) => exists i | 0 <= i < |values| :: ContainsText(values[i], needle)
    case Object(entries) => exists i | 0 <= i < |entries| :: ContainsText(entries[i].value, needle)
    case _ => false
  }

  function NonEmpty(parts: seq<string>): seq<string> {
    if parts == [] then []
    else (if parts[0] == "" then [] else [parts[0]]) + NonEmpty(parts[1..])
  }

  function EntryText(key: string, value: string): string {
    if value == "" then key else key + ": " + value
  }

  function Summary(issue: Issue): string {
    match issue
    case Null => ""
    case Words(text) => text
    case List(values) =>
      Join(NonEmpty(seq(|values|, i requires 0 <= i < |values| => Summary(values[i]))), "; ")
    case Object(entries) =>
      Join(seq(|entries|, i requires 0 <= i < |entries| => EntryText(entries[i].key, Summary(entries[i].value))), ", ")
    case Bool(flag) => if flag then "true" else "false"
    case Number(digits) => digits
  }

  // ---- What a summary looks like ------------------------------------------------------------

  lemma {:induction false} JoinConcat(a: seq<string>, b: seq<string>, sep: string)
    requires a != [] && b != []
    ensures Join(a + b, sep) == Join(a, sep) + sep + Join(b, sep)
  {
    if |a| == 1 {
      assert (a + b)[1..] == b;
    } else {
      assert (a + b)[1..] == a[1..] + b;
      JoinConcat(a[1..], b, sep);
      var x, y := Join(a[1..], sep), Join(b, sep);
      assert a[0] + sep + (x + sep + y) == a[0] + sep + x + sep + y;
    }
  }

  lemma {:induction false} NonEmptyConcat(a: seq<string>, b: seq<string>)
    ensures NonEmpty(a + b) == NonEmpty(a) + NonEmpty(b)
  {
    if a == [] {
      assert a + b == b;
    } else {
      assert (a + b)[1..] == a[1..] + b;
      NonEmptyConcat(a[1..], b);
    }
  }

  lemma {:induction false} NonEmptyFirst(parts: seq<string>)
    ensures NonEmpty(parts) != [] ==> NonEmpty(parts)[0] != ""
  {
    if parts != [] {
      NonEmptyFirst(parts[1..]);
    }
  }

  function Summaries(values: seq<Issue>): seq<string> {
    seq(|values|, i requires 0 <= i < |values| => Summary(values[i]))
  }

  lemma ListText(values: seq<Issue>)
    ensures Summary(List(values)) == Join(NonEmpty(Summaries(values)), "; ")
    ensures Summary(List(values)) == "" <==> NonEmpty(Summaries(values)) == []
  {
    var parts := NonEmpty(Summaries(values));
    assert Summaries(values) == seq(|values|, i requires 0 <= i < |values| => Summary(values[i]));
    NonEmptyFirst(Summaries(values));
    assert parts != [] ==> |Join(parts, "; ")| >= |parts[0]|;
  }

  /** A list shows what its values show, separated by `; `, and leaves out those that show nothing. */
  lemma ListReads(a: seq<Issue>, b: seq<Issue>, v: Issue)
    ensures Summary(List([])) == "" && Summary(List([v])) == Summary(v)
    ensures var x, y := Summary(List(a)), Summary(List(b));
            Summary(List(a + b)) == if x == "" then y else if y == "" then x else x + "; " + y
  {
    ListText([]);
    ListText([v]);
    assert Summaries([v]) == [Summary(v)] && [Summary(v)][1..] == [];
    ListText(a);
    ListText(b);
    ListText(a + b);
    assert Summaries(a + b) == Summaries(a) + Summaries(b);
    NonEmptyConcat(Summaries(a), Summaries(b));
    var p, q := NonEmpty(Summaries(a)), NonEmpty(Summaries(b));
    assert [] + q == q && p + [] == p;
    if p != [] && q != [] {
      JoinConcat(p, q, "; ");
    }
  }

  function EntryTexts(entries: seq<Entry>): seq<string> {
    seq(|entries|, i requires 0 <= i < |entries| => EntryText(entries[i].key, Summary(entries[i].value)))
  }

  lemma ObjectText(entries: seq<Entry>)
    ensures Summary(Object(entries)) == Join(EntryTexts(entries), ", ")
  {
    assert EntryTexts(entries)
           == seq(|entries|, i requires 0 <= i < |entries| => EntryText(entries[i].key, Summary(entries[i].value)));
  }

  /** An object shows every key, followed by what its value shows if anything, separated by `, `. */
  lemma ObjectReads(a: seq<Entry>, b: seq<Entry>, e: Entry)
    ensures Summary(Object([])) == ""
    ensures Summary(Object([e])) == if Summary(e.value) == "" then e.key else e.key + ": " + Summary(e.value)
    ensures a != [] && b != [] ==> Summary(Object(a + b)) == Summary(Object(a)) + ", " + Summary(Object(b))
  {
    ObjectText([e]);
    assert EntryTexts([e]) == [EntryText(e.key, Summary(e.value))];
    ObjectText(a);
    ObjectText(b);
    ObjectText(a + b);
    assert EntryTexts(a + b) == EntryTexts(a) + EntryTexts(b);
    if a != [] && b != [] {
      JoinConcat(EntryTexts(a), EntryTexts(b), ", ");
    }
  }

  // ---- The search against the summary -------------------------------------------------------

  lemma EveryTextHasEmpty(s: string)
    ensures Contains(s, "")
  {
    assert OccursAt(s, "", 0);
  }

  lemma {:induction false} JoinShows(parts: seq<string>, separator: string, i: nat, needle: string)
    requires i < |parts| && Contains(parts[i], needle)
    ensures Contains(Join(parts, separator), needle)
  {
    if |parts| > 1 {
      if i == 0 {
        ContainsInside("", parts[0], separator + Join(parts[1..], separator), needle);
        assert "" + parts[0] + (separator + Join(parts[1..], separator)) == Join(parts, separator);
      } else {
        JoinShows(parts[1..], separator, i - 1, needle);
        ContainsInside(parts[0] + separator, Join(parts[1..], separator), "", needle);
        assert parts[0] + separator + Join(parts[1..], separator) + "" == Join(parts, separator);
      }
    }
  }

  lemma {:induction false} NonEmptyKeeps(parts: seq<string>, i: nat) returns (j: nat)
    requires i < |parts| && parts[i] != ""
    ensures j < |NonEmpty(parts)| && NonEmpty(parts)[j] == parts[i]
  {
    if i == 0 {
      j := 0;
    } else {
      j := NonEmptyKeeps(parts[1..], i - 1);
      j := j + |NonEmpty(parts)| - |NonEmpty(parts[1..])|;
    }
  }

  lemma EntryShows(key: string, value: string, needle: string)
    requires Contains(key, needle) || Contains(value, needle)
    ensures Contains(EntryText(key, value), needle)
  {
    if value == "" {
      if Contains(value, needle) {
        assert needle == "";
        EveryTextHasEmpty(key);
      }
    } else if Contains(key, needle) {
      ContainsInside("", key, ": " + value, needle);
      assert "" + key + (": " + value) == EntryText(key, value);
    } else {
      ContainsInside(key + ": ", value, "", needle);
      assert key + ": " + value + "" == EntryText(key, value);
    }
  }

  /** Some text, key, flag or number anywhere in the tree has `needle`. */
  predicate Has(issue: Issue, needle: string) {
    match issue
    case Null => false
    case Words(text) => Contains(text, needle)
    case List(values) => exists i | 0 <= i < |values| :: Has(values[i], needle)
    case Object(entries) =>
      exists i | 0 <= i < |entries| :: Contains(entries[i].key, needle) || Has(entries[i].value, needle)
    case Bool(flag) => Contains(if flag then "true" else "false", needle)
    case Number(digits) => Contains(digits, needle)
  }

  /** The summary shows every text, key, flag and number, through every list and object join. */
  lemma {:induction false} EverythingIsShown(issue: Issue, needle: string)
    requires Has(issue, needle)
    ensures Contains(Summary(issue), needle)
    decreases issue
  {
    match issue
    case Words(_) | Bool(_) | Number(_) =>
    case List(values) =>
      var i :| 0 <= i < |values| && Has(values[i], needle);
      EverythingIsShown(values[i], needle);
      var parts := seq(|values|, i requires 0 <= i < |values| => Summary(values[i]));
      assert Contains(parts[i], needle);
      if parts[i] == "" {
        EveryTextHasEmpty(Summary(issue));
      } else {
        var j := NonEmptyKeeps(parts, i);
        JoinShows(NonEmpty(parts), "; ", j, needle);
      }
    case Object(entries) =>
      var i :| 0 <= i < |entries| && (Contains(entries[i].key, needle) || Has(entries[i].value, needle));
      if Has(entries[i].value, needle) {
        EverythingIsShown(entries[i].value, needle);
      }
      EntryShows(entries[i].key, Summary(entries[i].value), needle);
      var parts :=
        seq(|entries|, i requires 0 <= i < |entries| => EntryText(entries[i].key, Summary(entries[i].value)));
      JoinShows(parts, ", ", i, needle);
  }

  lemma {:induction false} FoundIsThere(issue: Issue, needle: string)
    requires ContainsText(issue, needle)
    ensures Has(issue, needle)
    decreases issue
  {
    match issue
    case Words(_) =>
    case List(values) =>
      var i :| 0 <= i < |values| && ContainsText(values[i], needle);
      FoundIsThere(values[i], needle);
    case Object(entries) =>
      var i :| 0 <= i < |entries| && ContainsText(entries[i].value, needle);
      FoundIsThere(entries[i].value, needle);
  }

  /** A needle found in some nested text shows in the summary. */
  lemma FoundIsShown(issue: Issue, needle: string)
    requires ContainsText(issue, needle)
    ensures Contains(Summary(issue), needle)
  {
    FoundIsThere(issue, needle);
    EverythingIsShown(issue, needle);
  }

  /** Keys, flags and numbers show in the summary too, so it can show what no nested text has. */
  lemma ShownIsNotFound(key: string)
    requires key != ""
    ensures var issue := Object([Entry(key, Null)]);
            Contains(Summary(issue), key) && !ContainsText(issue, key)
  {
    var issue := Object([Entry(key, Null)]);
    var parts := seq(1, i requires 0 <= i < 1 => EntryText(issue.entries[i].key, Summary(issue.entries[i].value)));
    assert parts == [key];
    assert Summary(issue) == key;
    assert OccursAt(key, key, 0);
  }

  /** Some nested text is `t`. */
  predicate HasText(issue: Issue, t: string) {
    match issue
    case Words(text) => text == t
    case List(values) => exists i | 0 <= i < |values| :: HasText(values[i], t)
    case Object(entries) => exists i | 0 <= i < |entries| :: HasText(entries[i].value, t)
    case _ => false
  }

  /** The search finds a needle exactly inside one of the nested texts. */
  lemma {:induction false} FoundInText(issue: Issue, needle: string)
    ensures ContainsText(issue, needle) <==> exists t :: HasText(issue, t) && Contains(t, needle)
    decreases issue
  {
    match issue
    case Words(text) => assert HasText(issue, text);
    case List(values) =>
      forall i | 0 <= i < |values|
        ensures ContainsText(values[i], needle) <==> exists t :: HasText(values[i], t) && Contains(t, needle)
      {
        FoundInText(values[i], needle);
      }
    case Object(entries) =>
      forall i | 0 <= i < |entries|
        ensures ContainsText(entries[i].value, needle) <==>
                exists t :: HasText(entries[i].value, t) && Contains(t, needle)
      {
        FoundInText(entries[i].value, needle);
      }
    case _ =>
  }

  /** The search finds everything the summary shows exactly when one nested text is the summary. */
  lemma AgreeExactlyWhen(issue: Issue)
    ensures (forall needle :: Contains(Summary(issue), needle) ==> ContainsText(issue, needle)) <==>
            HasText(issue, Summary(issue))
  {
    var all := Summary(issue);
    if forall needle :: Contains(all, needle) ==> ContainsText(issue, needle) {
      assert OccursAt(all, all, 0);
      FoundIsAll(issue, all);
    }
    if HasText(issue, all) {
      forall needle | Contains(all, needle) ensures ContainsText(issue, needle) {
        TextIsFound(issue, all, needle);
      }
    }
  }

  lemma TextIsFound(issue: Issue, t: string, needle: string)
    requires HasText(issue, t) && Contains(t, needle)
    ensures ContainsText(issue, needle)
  {
    FoundInText(issue, needle);
  }

  /** A search that finds the whole summary finds it as a text of its own. */
  lemma FoundIsAll(issue: Issue, all: string)
    requires all == Summary(issue) && ContainsText(issue, all)
    ensures HasText(issue, all)
  {
    FoundInText(issue, all);
    var t :| HasText(issue, t) && Contains(t, all);
    assert OccursAt(t, t, 0);
    TextIsFound(issue, t, t);
    FoundIsShown(issue, t);
    EachInOther(t, all);
  }

  lemma EachInOther(s: string, t: string)
    requires Contains(s, t) && Contains(t, s)
    ensures s == t
  {
    var i :| 0 <= i <= |s| && OccursAt(s, t, i);
    var j :| 0 <= j <= |t| && OccursAt(t, s, j);
    assert |s| == |t| && i == 0 && s[0..|t|] == s;
  }

  // ---- The status of an apply ---------------------------------------------------------------

  datatype Revision = Revision(state: Option<string>, issue: Option<Issue>)
  {
    /** The reported issue; null and the empty object stand for none. */
    function Reported(): Option<Issue> {
      if issue.None? || issue.value.Null? || issue.value == Object([]) then None else issue
    }
  }

  datatype Response = One(revision: Revision) | Many(revisions: map<string, Revision>)
  {
    function Find(id: string): Option<Revision> {
      match this
      case One(revision) => Some(revision)
      case Many(revisions) => if id in revisions then Some(revisions[id]) else None
    }

    function State(id: string): Option<string> {
      if Find(id).Some? then Find(id).value.state else None
    }

    function ReportedIssue(id: string): Option<Issue> {
      if Find(id).Some? then Find(id).value.Reported() else None
    }

    predicate HasNoConfigDiff(id: string) {
      ReportedIssue(id).Some? && ContainsText(ReportedIssue(id).value, NO_DIFF)
    }

    function IssueSummary(id: string): string {
      if ReportedIssue(id).Some? then Summary(ReportedIssue(id).value) else ""
    }

    function ApplyStatus(id: string): Status {
      var state := if State(id).Some? then State(id).value else "";
      if State(id) == Some("applied") then Applied
      else if State(id) == Some("applied_and_saved") then AppliedAndSaved
      else if HasNoConfigDiff(id) then NoConfigDiff
      else if State(id).Some? && state in FAILED_STATES then Failed(state, IssueSummary(id))
      else Pending(state)
    }
  }

  datatype Status =
    | Applied
    | AppliedAndSaved
    | NoConfigDiff
    | Failed(state: string, issue: string)
    | Pending(state: string)

  const NO_DIFF := "config apply executed with no config diff"
  const FAILED_STATES := {"failed", "error", "invalid"}

  /** The revision a response has for an id. */
  predicate Holds(r: Response, id: string, v: Revision) {
    match r
    case One(revision) => revision == v
    case Many(revisions) => id in revisions && revisions[id] == v
  }

  /** Some nested text of the reported issue has the message of an apply without a difference. */
  ghost predicate SaysNoDiff(v: Revision) {
    v.issue.Some? && exists t :: HasText(v.issue.value, t) && Contains(t, "config apply executed with no config diff")
  }

  predicate IsFailure(state: Option<string>) {
    state == Some("failed") || state == Some("error") || state == Some("invalid")
  }

  /** When each status is given: the two applied states first, then the message, then a failed state with
      what the issue shows; anything else is pending, and so is an id without a revision. */
  lemma StatusExactly(r: Response, id: string, v: Revision)
    ensures Holds(r, id, v) ==>
              && (r.ApplyStatus(id).Applied? <==> v.state == Some("applied"))
              && (r.ApplyStatus(id).AppliedAndSaved? <==> v.state == Some("applied_and_saved"))
              && (r.ApplyStatus(id).NoConfigDiff? <==>
                    v.state != Some("applied") && v.state != Some("applied_and_saved") && SaysNoDiff(v))
              && (r.ApplyStatus(id).Failed? <==> IsFailure(v.state) && !SaysNoDiff(v))
              && (r.ApplyStatus(id).Failed? ==>
                    r.ApplyStatus(id)
                    == Failed(v.state.value, if v.issue.Some? then Summary(v.issue.value) else ""))
              && (r.ApplyStatus(id).Pending? ==>
                    r.ApplyStatus(id) == Pending(if v.state.Some? then v.state.value else ""))
    ensures (forall v :: !Holds(r, id, v)) ==> r.ApplyStatus(id) == Pending("")
  {
    if Holds(r, id, v) {
      FoundHolds(r, id, v);
      NoDiffExactly(v);
    } else if r.Find(id).Some? {
      assert Holds(r, id, r.Find(id).value);
    }
  }

  lemma FoundHolds(r: Response, id: string, v: Revision)
    requires Holds(r, id, v)
    ensures r.Find(id) == Some(v)
  {
  }

  /** Leaving out null and the empty object changes neither the search nor the summary. */
  lemma NoDiffExactly(v: Revision)
    ensures v.Reported().Some? && ContainsText(v.Reported().value, NO_DIFF) <==> SaysNoDiff(v)
    ensures (if v.Reported().Some? then Summary(v.Reported().value) else "")
            == if v.issue.Some? then Summary(v.issue.value) else ""
  {
    if v.issue.Some? {
      FoundInText(v.issue.value, NO_DIFF);
      ObjectReads([], [], Entry("", Null));
    }
  }

  /** Every no-difference status has a summary that shows the message; a failure whose summary does
      not show it is never taken for one; and the two applied states outrank any issue. */
  lemma NoDiffIsShown(r: Response, id: string)
    ensures r.ApplyStatus(id).NoConfigDiff? ==> Contains(r.IssueSummary(id), NO_DIFF)
    ensures r.State(id).Some? && r.State(id).value in FAILED_STATES && !Contains(r.IssueSummary(id), NO_DIFF) ==>
              r.ApplyStatus(id) == Failed(r.State(id).value, r.IssueSummary(id))
    ensures r.ApplyStatus(id).Applied? <==> r.State(id) == Some("applied")
    ensures r.ApplyStatus(id).AppliedAndSaved? <==> r.State(id) == Some("applied_and_saved")
    ensures r.Find(id).None? ==> r.ApplyStatus(id) == Pending("")
  {
    if r.HasNoConfigDiff(id) {
      FoundIsShown(r.ReportedIssue(id).value, NO_DIFF);
    }
  }
}

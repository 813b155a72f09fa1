/** The pure parts of `HomeScreen` in `src/screens/HomeScreen.tsx`: the
    newest-first ordering applied by `loadNotes`, the search of
    `filterNotes`, and the label of the priority chip. */
module HomeScreen {
  import opened Results
  import opened Seqs
  import opened Text
  import opened NoteModel
  import StorageService

  // ---------------------------------------------------------------------
  // loadNotes: newest first
  // ---------------------------------------------------------------------

  predicate NewestFirst(notes: seq<Note>) {
    forall i, j :: 0 <= i < j < |notes| ==> notes[i].timestamp >= notes[j].timestamp
  }

  /** Puts `n` before the first note that is not newer than it. */
  function InsertByTime(n: Note, sorted: seq<Note>): seq<Note>
    decreases |sorted|
  {
    if sorted == [] then [n]
    else if n.timestamp >= sorted[0].timestamp then [n] + sorted
    else [sorted[0]] + InsertByTime(n, sorted[1..])
  }

  /** The inserted note lands in front or behind the old head. */
  lemma {:induction false} InsertByTimeHead(n: Note, sorted: seq<Note>)
    ensures |InsertByTime(n, sorted)| == |sorted| + 1
    ensures InsertByTime(n, sorted)[0] == n || (|sorted| > 0 && InsertByTime(n, sorted)[0] == sorted[0])
    decreases |sorted|
  {
    if sorted != [] && n.timestamp < sorted[0].timestamp {
      InsertByTimeHead(n, sorted[1..]);
    }
  }

  /** Insertion adds exactly `n`. */
  lemma {:induction false} InsertByTimeAddsNote(n: Note, sorted: seq<Note>)
    ensures multiset(InsertByTime(n, sorted)) == multiset(sorted) + multiset{n}
    decreases |sorted|
  {
    if sorted != [] && n.timestamp < sorted[0].timestamp {
      assert sorted == [sorted[0]] + sorted[1..];
      InsertByTimeAddsNote(n, sorted[1..]);
    }
  }

  /** Inserting into a newest-first list keeps it newest first. */
  lemma {:induction false} InsertByTimeSorted(n: Note, sorted: seq<Note>)
    requires NewestFirst(sorted)
    ensures NewestFirst(InsertByTime(n, sorted))
    decreases |sorted|
  {
    if sorted != [] && n.timestamp < sorted[0].timestamp {
      var head, rest := sorted[0], sorted[1..];
      InsertByTimeSorted(n, rest);
      InsertByTimeHead(n, rest);
      var r' := InsertByTime(n, rest);
      var r := [head] + r';
      assert r'[0].timestamp <= head.timestamp;
      forall i, j | 0 <= i < j < |r|
        ensures r[i].timestamp >= r[j].timestamp
      {
        if i == 0 {
          assert r[j] == r'[j - 1];
          assert r'[0].timestamp >= r'[j - 1].timestamp;
        } else {
          assert r[i] == r'[i - 1] && r[j] == r'[j - 1];
        }
      }
    }
  }

  /** `notes.sort((a, b) => b.timestamp - a.timestamp)`: a stable sort,
      newest first. */
  function SortNewestFirst(notes: seq<Note>): (r: seq<Note>)
    ensures NewestFirst(r)
    ensures multiset(r) == multiset(notes)
    decreases |notes|
  {
    if notes == [] then []
    else
      var rest := SortNewestFirst(notes[1..]);
      InsertByTimeSorted(notes[0], rest);
      InsertByTimeAddsNote(notes[0], rest);
      assert notes == [notes[0]] + notes[1..];
      InsertByTime(notes[0], rest)
  }

  /** The notes carrying timestamp `t`, in order. */
  function WithTimestamp(notes: seq<Note>, t: Timestamp): seq<Note> {
    Filter(notes, AtTime(t))
  }

  function AtTime(t: Timestamp): Note -> bool {
    (n: Note) => n.timestamp == t
  }

  lemma {:induction false} InsertByTimeStable(n: Note, sorted: seq<Note>, t: Timestamp)
    ensures WithTimestamp(InsertByTime(n, sorted), t)
            == (if n.timestamp == t then [n] else []) + WithTimestamp(sorted, t)
    decreases |sorted|
  {
    FilterSingleton(n, AtTime(t));
    if sorted == [] {
    } else if n.timestamp >= sorted[0].timestamp {
      FilterAppend([n], sorted, AtTime(t));
    } else {
      InsertByTimeStable(n, sorted[1..], t);
      InsertBehindHeadStable(n, sorted, t);
    }
  }

  /** The step of `InsertByTimeStable` where `n` goes behind an older head. */
  lemma InsertBehindHeadStable(n: Note, sorted: seq<Note>, t: Timestamp)
    requires |sorted| > 0 && n.timestamp < sorted[0].timestamp
    requires WithTimestamp(InsertByTime(n, sorted[1..]), t)
             == (if n.timestamp == t then [n] else []) + WithTimestamp(sorted[1..], t)
    ensures WithTimestamp(InsertByTime(n, sorted), t)
            == (if n.timestamp == t then [n] else []) + WithTimestamp(sorted, t)
  {
    var p := AtTime(t);
    var head, rest := sorted[0], sorted[1..];
    assert sorted == [head] + rest;
    var x := InsertByTime(n, rest);
    assert InsertByTime(n, sorted) == [head] + x;
    var hp := if head.timestamp == t then [head] else [];
    var np := if n.timestamp == t then [n] else [];
    FilterSingleton(head, p);
    assert Filter([head], p) == hp;
    FilterAppend([head], x, p);
    assert Filter([head] + x, p) == hp + Filter(x, p);
    assert Filter(x, p) == np + Filter(rest, p);
    FilterAppend([head], rest, p);
    assert Filter(sorted, p) == hp + Filter(rest, p);
    if hp == [] {
      assert hp + Filter(x, p) == Filter(x, p);
      assert Filter(sorted, p) == Filter(rest, p);
    } else {
      assert np == [];
      assert np + Filter(sorted, p) == Filter(sorted, p);
      assert Filter(x, p) == Filter(rest, p);
    }
  }

  /** The sort is stable: notes with equal timestamps keep their order. */
  lemma {:induction false} SortNewestFirstStable(notes: seq<Note>, t: Timestamp)
    ensures WithTimestamp(SortNewestFirst(notes), t) == WithTimestamp(notes, t)
    decreases |notes|
  {
    if notes != [] {
      var p := AtTime(t);
      assert notes == [notes[0]] + notes[1..];
      SortNewestFirstStable(notes[1..], t);
      InsertByTimeStable(notes[0], SortNewestFirst(notes[1..]), t);
      FilterAppend([notes[0]], notes[1..], p);
      FilterSingleton(notes[0], p);
    }
  }

  /** `loadNotes`: the stored notes, newest first. */
  function LoadNotes(stored: StorageService.Stored): (r: seq<Note>)
    ensures NewestFirst(r)
    ensures multiset(r) == multiset(StorageService.GetAllNotes(stored))
  {
    SortNewestFirst(StorageService.GetAllNotes(stored))
  }

  // ---------------------------------------------------------------------
  // filterNotes
  // ---------------------------------------------------------------------

  /** A note matches the lower-cased query `q` when `q` occurs in its
      lower-cased title, content, category or one of its tags. */
  predicate NoteMatches(note: Note, q: string) {
    var c := note.structuredContent;
    || Includes(ToLower(c.title), q)
    || Includes(ToLower(c.content), q)
    || Includes(ToLower(c.category), q)
    || exists i :: 0 <= i < |c.tags| && Includes(ToLower(c.tags[i]), q)
  }

  /** `filterNotes`: the trimmed query only decides whether to filter at
      all; the match uses the untrimmed, lower-cased query. */
  function FilterNotes(notes: seq<Note>, searchQuery: string): (r: seq<Note>)
    ensures |Trim(searchQuery)| == 0 ==> r == notes
    ensures |Trim(searchQuery)| != 0 ==>
              && SubsequenceOf(r, notes)
              && (forall n :: n in r <==> n in notes && NoteMatches(n, ToLower(searchQuery)))
              && forall n :: multiset(r)[n] ==
                   if NoteMatches(n, ToLower(searchQuery)) then multiset(notes)[n] else 0
  {
    if |Trim(searchQuery)| == 0 then notes
    else
      var query := ToLower(searchQuery);
      Filter(notes, (n: Note) => NoteMatches(n, query))
  }

  /** The query is blank exactly when it consists of whitespace only. */
  lemma BlankQueryKeepsAll(notes: seq<Note>, searchQuery: string)
    requires forall i :: 0 <= i < |searchQuery| ==> IsWhitespace(searchQuery[i])
    ensures FilterNotes(notes, searchQuery) == notes
  {
  }

  /** Reference form of a match: the query occurs at some position of one of
      the lower-cased fields. */
  lemma NoteMatchesIff(note: Note, q: string)
    ensures var c := note.structuredContent;
      NoteMatches(note, q) <==>
        || (exists k :: OccursAt(ToLower(c.title), q, k))
        || (exists k :: OccursAt(ToLower(c.content), q, k))
        || (exists k :: OccursAt(ToLower(c.category), q, k))
        || (exists i, k :: 0 <= i < |c.tags| && OccursAt(ToLower(c.tags[i]), q, k))
  {
    var c := note.structuredContent;
    IncludesIff(ToLower(c.title), q);
    IncludesIff(ToLower(c.content), q);
    IncludesIff(ToLower(c.category), q);
    forall i | 0 <= i < |c.tags| {
      IncludesIff(ToLower(c.tags[i]), q);
    }
  }

  predicate HasWhitespace(s: string) {
    exists i :: 0 <= i < |s| && IsWhitespace(s[i])
  }

  predicate FieldsHaveNoWhitespace(note: Note) {
    var c := note.structuredContent;
    && !HasWhitespace(c.title) && !HasWhitespace(c.content) && !HasWhitespace(c.category)
    && forall i :: 0 <= i < |c.tags| ==> !HasWhitespace(c.tags[i])
  }

  lemma NoWhitespaceExcludes(h: string, q: string)
    requires !HasWhitespace(h) && HasWhitespace(q)
    ensures !Includes(ToLower(h), ToLower(q))
  {
    ToLowerKeepsWhitespace(h);
    ToLowerKeepsWhitespace(q);
    var i :| 0 <= i < |q| && IsWhitespace(q[i]);
    var c := ToLower(q)[i];
    assert c !in ToLower(h);
    MissingCharExcludes(ToLower(h), ToLower(q), c);
  }

  /** Surrounding whitespace is not trimmed for matching: a query that
      contains whitespace finds no note whose fields contain none. */
  lemma UntrimmedQueryTakesPart(notes: seq<Note>, searchQuery: string)
    requires HasWhitespace(searchQuery) && |Trim(searchQuery)| != 0
    requires forall i :: 0 <= i < |notes| ==> FieldsHaveNoWhitespace(notes[i])
    ensures FilterNotes(notes, searchQuery) == []
  {
    var q := ToLower(searchQuery);
    forall n | n in notes
      ensures !NoteMatches(n, q)
    {
      var c := n.structuredContent;
      NoWhitespaceExcludes(c.title, searchQuery);
      NoWhitespaceExcludes(c.content, searchQuery);
      NoWhitespaceExcludes(c.category, searchQuery);
      forall i | 0 <= i < |c.tags|
        ensures !Includes(ToLower(c.tags[i]), q)
      {
        NoWhitespaceExcludes(c.tags[i], searchQuery);
      }
    }
  }

  // ---------------------------------------------------------------------
  // Priority chip
  // ---------------------------------------------------------------------

  const HighLabel: string := "Hohe Priorität"
  const MediumLabel: string := "Mittlere Priorität"
  const LowLabel: string := "Niedrige Priorität"

  /** The chip text: none without a priority; otherwise high and medium have
      their own label and everything else reads as low. */
  function PriorityLabel(p: Option<Priority>): (chip: Option<string>)
    ensures chip.None? <==> p.None?
  {
    match p
    case None => None
    case Some(v) =>
      Some(if v == High then HighLabel else if v == Medium then MediumLabel else LowLabel)
  }

  /** Reads a chip text back. */
  function PriorityOfLabel(text: string): Option<Priority> {
    if text == HighLabel then Some(High)
    else if text == MediumLabel then Some(Medium)
    else if text == LowLabel then Some(Low)
    else None
  }

  /** The label determines the priority: distinct priorities show distinct
      chips. */
  lemma PriorityLabelRoundTrip(p: Option<Priority>)
    ensures p.Some? ==> PriorityOfLabel(PriorityLabel(p).value) == p
  {
  }
}

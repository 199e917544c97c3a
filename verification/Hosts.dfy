/** The managed section of the hosts file: finding it, replacing it, and what repeated edits of a file
    this program does not own leave behind. Files are sequences of lines. */
module Hosts {
  import opened Domain
  import Text

  const BEGIN_MARKER := "# DO NOT EDIT p2p-ddns BEGIN"
  const END_MARKER := "# DO NOT EDIT p2p-ddns END"

  type Lines = seq<string>

  predicate IsBegin(line: string) {
    Text.Trim(line) == BEGIN_MARKER
  }

  predicate IsEnd(line: string) {
    Text.Trim(line) == END_MARKER
  }

  lemma MarkersAreMarkers()
    ensures IsBegin(BEGIN_MARKER) && IsEnd(END_MARKER)
    ensures forall line :: !(IsBegin(line) && IsEnd(line))
  {
    Text.TrimKeepsInkedEnds(BEGIN_MARKER);
    Text.TrimKeepsInkedEnds(END_MARKER);
    assert |BEGIN_MARKER| != |END_MARKER|;
  }

  /** The index of the first line satisfying `p`. */
  function Position(lines: Lines, p: string -> bool): (r: Option<nat>)
    ensures r.None? ==> forall i :: 0 <= i < |lines| ==> !p(lines[i])
    ensures r.Some? ==> r.value < |lines| && p(lines[r.value]) && forall i :: 0 <= i < r.value ==> !p(lines[i])
  {
    if lines == [] then None
    else if p(lines[0]) then Some(0)
    else
      match Position(lines[1..], p)
      case None => None
      case Some(i) => Some(i + 1)
  }

  lemma {:induction false} PositionIs(lines: Lines, p: string -> bool, i: nat)
    requires i < |lines| && p(lines[i]) && forall j :: 0 <= j < i ==> !p(lines[j])
    ensures Position(lines, p) == Some(i)
  {
  }

  lemma {:induction false} PositionNone(lines: Lines, p: string -> bool)
    requires forall line :: line in lines ==> !p(line)
    ensures Position(lines, p) == None
  {
  }

  function Section(entries: Lines): Lines {
    if entries == [] then [] else [BEGIN_MARKER] + entries + [END_MARKER]
  }

  datatype HostsError = MarkerMissing | SpliceOutOfRange

  /** The file with the trailing blank line that a new section gets in front of it. */
  function WithBlank(lines: Lines): Lines {
    if lines != [] && lines[|lines| - 1] != "" then lines + [""] else lines
  }

  /** The plain splice: cut the old section out, put the new one in its place, or at the end. An end
      marker more than one line ahead of the begin marker makes the cut impossible. */
  function Splice(lines: Lines, section: Lines): Result<Lines, HostsError> {
    match (Position(lines, IsBegin), Position(lines, IsEnd))
    case (Some(b), Some(e)) =>
      if b > e + 1 then Err(SpliceOutOfRange) else Ok(lines[..b] + section + lines[e + 1..])
    case (None, None) => Ok(WithBlank(lines) + section)
    case (Some(_), None) => Err(MarkerMissing)
    case (None, Some(_)) => Err(MarkerMissing)
  }

  /** The old section is already the new one. */
  predicate UpToDate(lines: Lines, section: Lines) {
    match (Position(lines, IsBegin), Position(lines, IsEnd))
    case (Some(b), Some(e)) => b <= e + 1 && lines[b..e + 1] == section
    case (None, None) => false
    case (Some(_), None) => false
    case (None, Some(_)) => false
  }

  /** The lines without those from `from` to `to`; the cut is at `from`. */
  function Drained(lines: Lines, from: nat, to: nat): (rest: Lines)
    requires from <= to <= |lines|
    ensures |rest| == |lines| - (to - from)
    ensures rest[..from] == lines[..from] && rest[from..] == lines[to..]
  {
    lines[..from] + lines[to..]
  }

  lemma DrainedThenInserted(lines: Lines, from: nat, to: nat, section: Lines)
    requires from <= to <= |lines|
    ensures var rest := Drained(lines, from, to);
      rest[..from] + section + rest[from..] == lines[..from] + section + lines[to..]
  {
  }

  lemma InsertedAtEnd(lines: Lines, section: Lines)
    ensures lines[..|lines|] + section + lines[|lines|..] == lines + section
  {
  }

  // ---- A write, line by line ----

  ghost predicate FirstWith(lines: Lines, p: string -> bool, i: nat) {
    i < |lines| && p(lines[i]) && forall j :: 0 <= j < i ==> !p(lines[j])
  }

  ghost predicate Has(lines: Lines, p: string -> bool) {
    exists i :: 0 <= i < |lines| && p(lines[i])
  }

  /** What a write does to a file, told by its lines. Without markers the section goes to the end, after a
      blank line if the last one is not blank. With one kind of marker only, the write fails. With both,
      the lines from the first begin marker to the first end marker give way to the section and all others
      stay, unless the end marker is more than one line ahead; the file counts as written unless those lines
      are the section already. A write that fails changes nothing. */
  ghost predicate Written(before: Lines, section: Lines, after: Lines, r: Result<bool, HostsError>) {
    && (r.Err? ==> after == before)
    && (r.Ok? && !r.value ==> after == before)
    && (Has(before, IsBegin) != Has(before, IsEnd) ==> r == Err(MarkerMissing))
    && (!Has(before, IsBegin) && !Has(before, IsEnd) ==>
          && r == Ok(true)
          && after == before + (if before == [] || before[|before| - 1] == "" then [] else [""]) + section)
    && (forall b: nat, e: nat :: FirstWith(before, IsBegin, b) && FirstWith(before, IsEnd, e) ==>
          if b > e + 1 then r == Err(SpliceOutOfRange)
          else r == Ok(before[b..e + 1] != section) && after == before[..b] + section + before[e + 1..])
  }

  lemma PositionsFound(lines: Lines, p: string -> bool)
    ensures Position(lines, p).Some? <==> Has(lines, p)
    ensures forall i: nat :: FirstWith(lines, p, i) <==> Position(lines, p) == Some(i)
  {
  }

  lemma SpliceIs(lines: Lines, section: Lines)
    ensures Written(lines, section, if Splice(lines, section).Ok? then Splice(lines, section).value else lines,
                    if Splice(lines, section).Err? then Err(Splice(lines, section).error)
                    else Ok(!UpToDate(lines, section)))
  {
    PositionsFound(lines, IsBegin);
    PositionsFound(lines, IsEnd);
    if UpToDate(lines, section) {
      UpToDateIsFixed(lines, section);
    }
  }

  /** A file whose end marker was deleted is left alone. */
  lemma HalfSectionRefused(lines: Lines, section: Lines)
    requires Has(lines, IsBegin) != Has(lines, IsEnd)
    ensures Splice(lines, section) == Err(MarkerMissing)
  {
    SpliceIs(lines, section);
  }

  class HostsFile {
    var lines: Lines

    constructor (lines: Lines)
      ensures this.lines == lines
    {
      this.lines := lines;
    }

    /** Writes the section, skipping the write when nothing would change; true if the file was written. */
    method WriteSection(section: Lines) returns (r: Result<bool, HostsError>)
      modifies this
      ensures Splice(old(lines), section).Ok? ==> r == Ok(!UpToDate(old(lines), section))
      ensures Splice(old(lines), section).Err? ==> r == Err(Splice(old(lines), section).error)
      ensures lines == if r.Ok? then Splice(old(lines), section).value else old(lines)
      ensures Written(old(lines), section, lines, r)
    {
      SpliceIs(lines, section);
      if UpToDate(lines, section) {
        UpToDateIsFixed(lines, section);
      }
      var planned := Plan(lines, section);
      if planned.Err? {
        return Err(planned.error);
      }
      if planned.value.None? {
        UpToDateIsFixed(lines, section);
        return Ok(false);
      }
      var (content, insert) := planned.value.value;
      lines := Emit(content, insert, section);
      return Ok(true);
    }

    /** Finds the markers: nothing to do, or what remains without the old section and where the new one goes. */
    static method Plan(content: Lines, section: Lines) returns (r: Result<Option<(Lines, nat)>, HostsError>)
      ensures r.Err? <==> Splice(content, section).Err?
      ensures r.Err? ==> r.error == Splice(content, section).error
      ensures r.Ok? ==> (r.value.None? <==> UpToDate(content, section))
      ensures r.Ok? && r.value.Some? ==>
        var (rest, insert) := r.value.value;
        insert <= |rest| && Splice(content, section) == Ok(rest[..insert] + section + rest[insert..])
    {
      var begin := Position(content, IsBegin);
      var end := Position(content, IsEnd);
      match (begin, end) {
        case (Some(b), Some(e)) =>
          if b > e + 1 {
            return Err(SpliceOutOfRange);
          }
          if content[b..e + 1] == section {
            return Ok(None);
          }
          DrainedThenInserted(content, b, e + 1, section);
          return Ok(Some((Drained(content, b, e + 1), b)));
        case (None, None) =>
          var rest := content;
          if content != [] && content[|content| - 1] != "" {
            rest := content + [""];
          }
          InsertedAtEnd(rest, section);
          return Ok(Some((rest, |rest|)));
        case (Some(_), None) => return Err(MarkerMissing);
        case (None, Some(_)) => return Err(MarkerMissing);
      }
    }

    /** The three write loops: up to the insertion point, the section, the rest. */
    static method Emit(content: Lines, insert: nat, section: Lines) returns (written: Lines)
      requires insert <= |content|
      ensures written == content[..insert] + section + content[insert..]
    {
      written := CopyOnto([], content[..insert]);
      written := CopyOnto(written, section);
      written := CopyOnto(written, content[insert..]);
    }

    static method CopyOnto(sink: Lines, source: Lines) returns (written: Lines)
      ensures written == sink + source
    {
      written := sink;
      var i := 0;
      while i < |source|
        invariant 0 <= i <= |source|
        invariant written == sink + source[..i]
      {
        written := written + [source[i]];
        i := i + 1;
      }
      assert source[..i] == source;
    }
  }

  /** Not writing is the same as writing what is there: an up-to-date file is its own splice. */
  lemma UpToDateIsFixed(lines: Lines, section: Lines)
    requires UpToDate(lines, section)
    ensures Splice(lines, section) == Ok(lines)
  {
    var b, e := Position(lines, IsBegin).value, Position(lines, IsEnd).value;
    assert lines == lines[..b] + lines[b..e + 1] + lines[e + 1..];
  }

  // ---- Shapes ----

  ghost predicate Clean(lines: Lines) {
    forall line :: line in lines ==> !IsBegin(line) && !IsEnd(line)
  }

  /** One section and no other marker: `before`, the section around `inside`, `after`. */
  ghost predicate Sectioned(lines: Lines, before: Lines, open: string, inside: Lines, close: string, after: Lines) {
    && lines == before + [open] + inside + [close] + after
    && Clean(before) && IsBegin(open) && Clean(inside) && IsEnd(close) && Clean(after)
  }

  ghost predicate Shaped(lines: Lines) {
    Clean(lines)
    || exists before, open, inside, close, after :: Sectioned(lines, before, open, inside, close, after)
  }

  /** The lines that are not the program's. */
  function Outside(lines: Lines): Lines {
    match (Position(lines, IsBegin), Position(lines, IsEnd))
    case (Some(b), Some(e)) => if b <= e then lines[..b] + lines[e + 1..] else lines
    case (None, None) => lines
    case (Some(_), None) => lines
    case (None, Some(_)) => lines
  }

  lemma {:induction false} CleanPositions(lines: Lines)
    requires Clean(lines)
    ensures Position(lines, IsBegin) == None && Position(lines, IsEnd) == None
  {
    PositionNone(lines, IsBegin);
    PositionNone(lines, IsEnd);
  }

  lemma SectionedSlices(before: Lines, open: string, inside: Lines, close: string, after: Lines)
    ensures var lines := before + [open] + inside + [close] + after;
      var b, e := |before|, |before| + 1 + |inside|;
      && e < |lines| && lines[b] == open && lines[e] == close
      && lines[..b] == before && lines[b + 1..e] == inside && lines[e + 1..] == after
  {
  }

  /** Where the markers of a section are found; what follows the section does not matter. */
  lemma SectionPositions(before: Lines, open: string, inside: Lines, close: string, after: Lines)
    requires Clean(before) && IsBegin(open) && Clean(inside) && IsEnd(close)
    ensures var lines := before + [open] + inside + [close] + after;
      && Position(lines, IsBegin) == Some(|before|)
      && Position(lines, IsEnd) == Some(|before| + 1 + |inside|)
  {
    MarkersAreMarkers();
    SectionedSlices(before, open, inside, close, after);
    var lines := before + [open] + inside + [close] + after;
    var b, e := |before|, |before| + 1 + |inside|;
    forall i | 0 <= i < e && i != b ensures !IsBegin(lines[i]) && !IsEnd(lines[i]) {
      if i < b {
        assert lines[i] == lines[..b][i] && lines[i] in before;
      } else {
        assert lines[i] == lines[b + 1..e][i - b - 1] && lines[i] in inside;
      }
    }
    PositionIs(lines, IsBegin, b);
    PositionIs(lines, IsEnd, e);
  }

  lemma {:induction false} SectionedPositions(lines: Lines, before: Lines, open: string, inside: Lines, close: string,
                                              after: Lines)
    requires Sectioned(lines, before, open, inside, close, after)
    ensures Position(lines, IsBegin) == Some(|before|)
    ensures Position(lines, IsEnd) == Some(|before| + 1 + |inside|)
    ensures Outside(lines) == before + after
  {
    SectionPositions(before, open, inside, close, after);
    SectionedSlices(before, open, inside, close, after);
  }

  lemma SectionAssoc(before: Lines, entries: Lines, after: Lines)
    requires entries != []
    ensures before + Section(entries) + after == before + [BEGIN_MARKER] + entries + [END_MARKER] + after
  {
  }

  lemma SpliceSectioned(lines: Lines, before: Lines, open: string, inside: Lines, close: string, after: Lines,
                        section: Lines)
    requires Sectioned(lines, before, open, inside, close, after)
    ensures Splice(lines, section) == Ok(before + section + after)
  {
    SectionedPositions(lines, before, open, inside, close, after);
    SectionedSlices(before, open, inside, close, after);
  }

  /** A write of entry lines over a shaped file succeeds; what it leaves is the section in place of the
      old one, or at the end after at most one new blank line. */
  lemma WriteShaped(lines: Lines, entries: Lines) returns (before: Lines, after: Lines)
    requires Shaped(lines) && Clean(entries)
    ensures Splice(lines, Section(entries)) == Ok(before + Section(entries) + after)
    ensures Clean(before) && Clean(after)
    ensures Clean(lines) ==> before == WithBlank(lines) && after == []
    ensures !Clean(lines) ==> before + after == Outside(lines)
  {
    if Clean(lines) {
      CleanPositions(lines);
      before, after := WithBlank(lines), [];
      BlankIsClean();
      assert before + Section(entries) + [] == before + Section(entries);
    } else {
      var pre, open, inside, close, post :| Sectioned(lines, pre, open, inside, close, post);
      SectionedPositions(lines, pre, open, inside, close, post);
      SpliceSectioned(lines, pre, open, inside, close, post, Section(entries));
      before, after := pre, post;
    }
  }

  lemma BlankIsClean()
    ensures !IsBegin("") && !IsEnd("")
  {
    assert Text.Trim("") == "";
  }

  lemma SpliceKeepsShape(before: Lines, entries: Lines, after: Lines)
    requires Clean(before) && Clean(entries) && Clean(after)
    ensures Shaped(before + Section(entries) + after)
    ensures Outside(before + Section(entries) + after) == before + after
    ensures entries == [] ==> Clean(before + Section(entries) + after)
  {
    var lines := before + Section(entries) + after;
    if entries == [] {
      assert lines == before + after;
      CleanPositions(lines);
    } else {
      SectionAssoc(before, entries, after);
      SectionKeepsShape(before, entries, after);
    }
  }

  lemma SectionKeepsShape(before: Lines, entries: Lines, after: Lines)
    requires Clean(before) && Clean(entries) && Clean(after)
    ensures var lines := before + [BEGIN_MARKER] + entries + [END_MARKER] + after;
      Shaped(lines) && Outside(lines) == before + after
  {
    MarkersAreMarkers();
    var lines := before + [BEGIN_MARKER] + entries + [END_MARKER] + after;
    assert Sectioned(lines, before, BEGIN_MARKER, entries, END_MARKER, after);
    SectionedPositions(lines, before, BEGIN_MARKER, entries, END_MARKER, after);
  }

  // ---- Runs of edits ----

  /** The file after writes of the given entry lists, an empty list being a clear. */
  function After(lines: Lines, edits: seq<Lines>): Lines {
    if edits == [] then lines
    else
      var n := |edits| - 1;
      var current := After(lines, edits[..n]);
      match Splice(current, Section(edits[n]))
      case Ok(next) => next
      case Err(_) => current
  }

  /** The file has no section to replace, and its last line is not blank. */
  ghost predicate LacksBlank(lines: Lines) {
    Clean(lines) && lines != [] && lines[|lines| - 1] != ""
  }

  /** One write leaves what is outside the section alone, except that a file without a section gets a
      blank line after a last line that is not blank. */
  lemma EditKeepsOutside(lines: Lines, entries: Lines)
    requires Shaped(lines) && Clean(entries)
    ensures Splice(lines, Section(entries)).Ok?
    ensures var next := Splice(lines, Section(entries)).value;
      && Shaped(next) && (Clean(next) <==> entries == [])
      && Outside(next) == (if Clean(lines) then WithBlank(Outside(lines)) else Outside(lines))
      && (Outside(next) == Outside(lines) <==> !LacksBlank(lines))
  {
    var before, after := WriteShaped(lines, entries);
    SpliceKeepsShape(before, entries, after);
    if Clean(lines) {
      CleanPositions(lines);
      NothingAfter(before);
    }
    if entries != [] {
      MarkersAreMarkers();
      assert (before + Section(entries) + after)[|before|] == BEGIN_MARKER;
    }
  }

  /** Some edit of the run meets a file without a section: the first one if the file began so, a later
      one if the edit before it was a clear. */
  ghost predicate MeetsNoSection(lines: Lines, edits: seq<Lines>) {
    edits != [] &&
    var n := |edits| - 1;
    (if n == 0 then Clean(lines) else edits[n - 1] == []) || MeetsNoSection(lines, edits[..n])
  }

  /** The run adds a blank line: it is not there yet, and some edit meets a file without a section. */
  ghost predicate GainsBlank(lines: Lines, edits: seq<Lines>) {
    WithBlank(Outside(lines)) != Outside(lines) && MeetsNoSection(lines, edits)
  }

  ghost predicate CleanEdits(edits: seq<Lines>) {
    forall k :: 0 <= k < |edits| ==> Clean(edits[k])
  }

  lemma CleanFront(edits: seq<Lines>)
    requires CleanEdits(edits) && edits != []
    ensures CleanEdits(edits[..|edits| - 1]) && Clean(edits[|edits| - 1])
  {
  }

  /** Any run of syncs and clears keeps the shape of the file and every line outside the section, in
      order. The lines outside stay untouched if and only if there are none, or the last one is blank, or
      no edit meets a file without a section; otherwise the run adds one blank line, at the end. */
  lemma {:induction false} EditsKeepOutside(lines: Lines, edits: seq<Lines>)
    requires Shaped(lines) && CleanEdits(edits)
    ensures Shaped(After(lines, edits))
    ensures Clean(After(lines, edits)) <==> if edits == [] then Clean(lines) else edits[|edits| - 1] == []
    ensures Outside(After(lines, edits)) == if GainsBlank(lines, edits) then Outside(lines) + [""] else Outside(lines)
    ensures Outside(After(lines, edits)) == Outside(lines) <==> !GainsBlank(lines, edits)
  {
    if edits != [] {
      var n := |edits| - 1;
      var current := After(lines, edits[..n]);
      CleanFront(edits);
      EditsKeepOutside(lines, edits[..n]);
      assert n > 0 ==> edits[..n][n - 1] == edits[n - 1];
      EditKeepsOutside(current, edits[n]);
      BlankEndsBlank(Outside(lines));
    }
  }

  lemma {:induction false} FirstMeetsNoSection(lines: Lines, edits: seq<Lines>)
    requires Clean(lines) && edits != []
    ensures MeetsNoSection(lines, edits)
  {
    if |edits| > 1 {
      FirstMeetsNoSection(lines, edits[..|edits| - 1]);
    }
  }

  lemma {:induction false} LaterMeetsNoSection(lines: Lines, edits: seq<Lines>)
    requires !Clean(lines)
    ensures MeetsNoSection(lines, edits) <==> exists k :: 0 <= k < |edits| - 1 && edits[k] == []
  {
    if |edits| > 1 {
      var n := |edits| - 1;
      LaterMeetsNoSection(lines, edits[..n]);
      assert forall k :: 0 <= k < n ==> edits[..n][k] == edits[k];
    }
  }

  lemma BlankEndsBlank(lines: Lines)
    ensures WithBlank(WithBlank(lines)) == WithBlank(lines)
    ensures WithBlank(lines) != lines ==> WithBlank(lines) == lines + [""]
  {
  }

  /** For a file that began without a section: untouched exactly if nothing was done, or there was no last
      line that is not blank. */
  lemma {:induction false} MarkerlessFileKept(lines: Lines, edits: seq<Lines>)
    requires Clean(lines) && CleanEdits(edits)
    ensures Outside(After(lines, edits)) == lines <==> edits == [] || !LacksBlank(lines)
  {
    assert Outside(lines) == lines by {
      CleanPositions(lines);
    }
    EditsKeepOutside(lines, edits);
    if edits != [] {
      FirstMeetsNoSection(lines, edits);
      BlankEndsBlank(lines);
    }
  }

  /** For a file that began with a section: untouched exactly if no edit followed a clear, or there was no last
      line outside that is not blank. */
  lemma {:induction false} SectionedFileKept(lines: Lines, edits: seq<Lines>)
    requires Shaped(lines) && !Clean(lines) && CleanEdits(edits)
    ensures Outside(After(lines, edits)) == Outside(lines) <==>
      WithBlank(Outside(lines)) == Outside(lines) || forall k :: 0 <= k < |edits| - 1 ==> edits[k] != []
  {
    EditsKeepOutside(lines, edits);
    LaterMeetsNoSection(lines, edits);
  }

  /** The promise fails on the simplest file: clearing a file of one line adds a line. */
  lemma ClearAddsLine()
    ensures After(["127.0.0.1 localhost"], [[]]) == ["127.0.0.1 localhost", ""]
    ensures Outside(After(["127.0.0.1 localhost"], [[]])) != Outside(["127.0.0.1 localhost"])
  {
    var line, lines := "127.0.0.1 localhost", ["127.0.0.1 localhost"];
    Text.TrimKeepsFirst(line);
    CleanPositions(lines);
    BlankIsClean();
    CleanPositions([line, ""]);
    var clear: seq<Lines> := [[]];
    assert clear[..0] == [] && After(lines, []) == lines;
    assert WithBlank(lines) == [line, ""];
    NothingAfter([line, ""]);
  }

  lemma SpliceAgain(base: Lines, last: Lines, entries: Lines)
    requires Clean(base) && Clean(last) && WithBlank(base) == base
    ensures Splice(base + Section(last), Section(entries)) == Ok(base + Section(entries))
  {
    if last == [] {
      assert base + Section(last) == base;
      CleanPositions(base);
    } else {
      MarkersAreMarkers();
      SectionAssoc(base, last, []);
      assert Clean([]);
      SpliceSectioned(base + Section(last) + [], base, BEGIN_MARKER, last, END_MARKER, [], Section(entries));
      NothingAfter(base + Section(last));
      NothingAfter(base + Section(entries));
    }
  }

  lemma NothingAfter(lines: Lines)
    ensures lines + [] == lines
  {
  }

  /** On a file that began without markers only the last write or clear matters. */
  lemma {:induction false} LastEditDecides(lines: Lines, edits: seq<Lines>)
    requires Clean(lines) && edits != [] && CleanEdits(edits)
    ensures After(lines, edits) == WithBlank(lines) + Section(edits[|edits| - 1])
  {
    var n := |edits| - 1;
    var front := edits[..n];
    if n == 0 {
      FirstEditDecides(lines, edits);
    } else {
      CleanFront(edits);
      LastEditDecides(lines, front);
      CleanFront(front);
      NextEditDecides(lines, edits, front[n - 1]);
    }
  }

  lemma {:induction false} FirstEditDecides(lines: Lines, edits: seq<Lines>)
    requires Clean(lines) && |edits| == 1
    ensures After(lines, edits) == WithBlank(lines) + Section(edits[0])
  {
    assert edits[..0] == [];
    NoSectionYet(lines, edits[0]);
    EditMade(lines, edits, lines, WithBlank(lines) + Section(edits[0]));
  }

  lemma {:induction false} NextEditDecides(lines: Lines, edits: seq<Lines>, last: Lines)
    requires Clean(lines) && Clean(last) && edits != []
    requires After(lines, edits[..|edits| - 1]) == WithBlank(lines) + Section(last)
    ensures After(lines, edits) == WithBlank(lines) + Section(edits[|edits| - 1])
  {
    var n := |edits| - 1;
    BlankIsClean();
    SpliceAgain(WithBlank(lines), last, edits[n]);
    EditMade(lines, edits, WithBlank(lines) + Section(last), WithBlank(lines) + Section(edits[n]));
  }

  lemma NoSectionYet(lines: Lines, entries: Lines)
    requires Clean(lines)
    ensures Splice(lines, Section(entries)) == Ok(WithBlank(lines) + Section(entries))
  {
    CleanPositions(lines);
  }

  lemma {:induction false} EditMade(lines: Lines, edits: seq<Lines>, current: Lines, next: Lines)
    requires edits != [] && After(lines, edits[..|edits| - 1]) == current
    requires Splice(current, Section(edits[|edits| - 1])) == Ok(next)
    ensures After(lines, edits) == next
  {
  }

  /** No end marker comes ahead of the first begin marker. */
  predicate Ordered(lines: Lines) {
    match (Position(lines, IsBegin), Position(lines, IsEnd))
    case (Some(b), Some(e)) => b < e
    case (None, None) => true
    case (Some(_), None) => true
    case (None, Some(_)) => false
  }

  /** Writing the same non-empty section twice writes once, exactly when no end marker came ahead of the
      begin marker. */
  lemma RepeatedWriteSkipped(lines: Lines, entries: Lines)
    requires entries != [] && Clean(entries) && Splice(lines, Section(entries)).Ok?
    ensures UpToDate(Splice(lines, Section(entries)).value, Section(entries)) <==> Ordered(lines)
  {
    MarkersAreMarkers();
    if Position(lines, IsBegin).None? {
      RepeatAfterNewSection(lines, entries);
    } else if Ordered(lines) {
      RepeatAfterReplacement(lines, entries);
    } else {
      RepeatAfterInsertion(lines, entries);
    }
  }

  lemma {:induction false} RepeatAfterNewSection(lines: Lines, entries: Lines)
    requires entries != [] && Clean(entries)
    requires Position(lines, IsBegin).None? && Position(lines, IsEnd).None?
    ensures UpToDate(Splice(lines, Section(entries)).value, Section(entries))
  {
    assert Clean(WithBlank(lines)) by {
      BlankIsClean();
    }
    WrittenIsUpToDate(WithBlank(lines), entries, []);
    NothingAfter(WithBlank(lines) + Section(entries));
  }

  lemma {:induction false} RepeatAfterReplacement(lines: Lines, entries: Lines)
    requires entries != [] && Clean(entries)
    requires Position(lines, IsBegin).Some? && Position(lines, IsEnd).Some?
    requires Position(lines, IsBegin).value < Position(lines, IsEnd).value
    ensures UpToDate(Splice(lines, Section(entries)).value, Section(entries))
  {
    var b, e := Position(lines, IsBegin).value, Position(lines, IsEnd).value;
    assert Clean(lines[..b]);
    WrittenIsUpToDate(lines[..b], entries, lines[e + 1..]);
  }

  lemma {:induction false} RepeatAfterInsertion(lines: Lines, entries: Lines)
    requires entries != []
    requires Position(lines, IsBegin).Some? && Position(lines, IsEnd).Some?
    requires Position(lines, IsBegin).value == Position(lines, IsEnd).value + 1
    ensures !UpToDate(Splice(lines, Section(entries)).value, Section(entries))
  {
    var b, e := Position(lines, IsBegin).value, Position(lines, IsEnd).value;
    var before, after := lines[..b], lines[e + 1..];
    assert Splice(lines, Section(entries)) == Ok(before + Section(entries) + after);
    assert before[e] == lines[e];
    WrittenAfterEnd(before, entries, after, e);
  }

  lemma {:induction false} WrittenBegin(before: Lines, entries: Lines, after: Lines)
    requires entries != [] && forall line :: line in before ==> !IsBegin(line)
    ensures Position(before + Section(entries) + after, IsBegin) == Some(|before|)
  {
    MarkersAreMarkers();
    var written := before + Section(entries) + after;
    assert written[|before|] == BEGIN_MARKER;
    assert forall i :: 0 <= i < |before| ==> written[i] == before[i];
    PositionIs(written, IsBegin, |before|);
  }

  lemma WrittenIsUpToDate(before: Lines, entries: Lines, after: Lines)
    requires entries != [] && Clean(entries) && Clean(before)
    ensures UpToDate(before + Section(entries) + after, Section(entries))
  {
    MarkersAreMarkers();
    SectionAssoc(before, entries, after);
    SectionPositions(before, BEGIN_MARKER, entries, END_MARKER, after);
    var written := before + Section(entries) + after;
    assert written[|before|..|before| + 1 + |entries| + 1] == Section(entries);
  }

  lemma WrittenAfterEnd(before: Lines, entries: Lines, after: Lines, i: nat)
    requires entries != [] && forall line :: line in before ==> !IsBegin(line)
    requires i < |before| && IsEnd(before[i])
    ensures !UpToDate(before + Section(entries) + after, Section(entries))
  {
    var written := before + Section(entries) + after;
    WrittenBegin(before, entries, after);
    assert written[i] == before[i];
    var e := Position(written, IsEnd);
    assert e.Some? && e.value <= i;
  }
}

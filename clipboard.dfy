/**
  The GUI process of the clipboard history tool (WaylandClipboard.py): the
  periodic clipboard check with its two-way deduplication, the suppression
  flags, clearing, copying back from history, the display rows and the
  visibility toggle driven by the IPC command.

  The external executables (`wl-paste`, `wl-copy`), the history file and
  GTK are not called: their outcomes are parameters of the operations.
 */
module WaylandClipboard {
  import opened Options
  import opened PyText

  /** One history entry `(content, content_type)`. */
  datatype Record = Record(content: string, kind: string)

  /** One row of the display store: (preview, full content). */
  datatype Row = Row(preview: string, full: string)

  /** What running an external executable gave: it was not installed, or it
      exited with a code and printed `stdout`. */
  datatype Run = NotFound | Exited(code: int, stdout: string)

  /** The pair `(content, content_type)` that `get_clipboard_content`
      returns; `(None, None)` when there is nothing usable. */
  datatype Reading = Reading(content: Option<string>, kind: Option<string>)

  const TextPlain: string := "text/plain"
  const TextKind: string := "text"
  /** Targets listed by `wl-paste --list-types` that count as text. */
  const TextTypes: seq<string> := ["text/plain", "UTF8_STRING", "TEXT", "STRING"]
  /** Longest content shown unabridged in the preview column. */
  const PreviewLimit: nat := 50
  const Ellipsis: string := "..."
  /** Delays (ms) after which the suppression flags are cleared again. */
  const ConfigureResetMs: nat := 300
  const FocusResetMs: nat := 200
  const CopyResetMs: nat := 500
  /** The IPC command: the ASCII bytes of "toggle". */
  const ToggleCommand: seq<bv8> := [0x74, 0x6f, 0x67, 0x67, 0x6c, 0x65]
  /** Size of the single `recv` the server does per connection. */
  const RecvBufferSize: nat := 1024

  // ---------------------------------------------------------------------
  // Clipboard type and content

  /** A listed target that, once trimmed, names a text type. */
  predicate IsTextTarget(line: string) {
    Strip(line) in TextTypes
  }

  /** Some line of the listing is a text target. */
  predicate HasTextTarget(lines: seq<string>) {
    exists k :: 0 <= k < |lines| && IsTextTarget(lines[k])
  }

  /** The answer of `get_clipboard_type` for a given run of
      `wl-paste --list-types`. */
  function ClipboardTypeOf(configuring: bool, listTypes: Run): (t: Option<string>)
    ensures t.Some? ==> t.value == TextPlain
  {
    if configuring then None
    else match listTypes
      case NotFound => None
      case Exited(code, out) =>
        if code != 0 || Strip(out) == [] then None
        else if HasTextTarget(Split(Strip(out), '\n')) then Some(TextPlain)
        else None
  }

  /** The `for target in targets` loop of `get_clipboard_type`, with its
      test as a parameter: whether some target passes the test. */
  method FindTarget(targets: seq<string>, test: string -> bool) returns (found: bool)
    ensures found <==> exists k :: 0 <= k < |targets| && test(targets[k])
  {
    var i := 0;
    while i < |targets|
      invariant 0 <= i <= |targets|
      invariant forall k :: 0 <= k < i ==> !test(targets[k])
    {
      if test(targets[i]) {
        return true;
      }
      i := i + 1;
    }
    return false;
  }

  /** `get_clipboard_type`: `'text/plain'` exactly when `wl-paste
      --list-types` ran, exited with 0, printed something other than white
      space, and one of its trimmed lines is a text type. */
  method GetClipboardType(configuring: bool, listTypes: Run) returns (t: Option<string>)
    ensures t == ClipboardTypeOf(configuring, listTypes)
    ensures t == Some(TextPlain) <==>
      && !configuring
      && listTypes.Exited? && listTypes.code == 0
      && !AllSpace(listTypes.stdout)
      && HasTextTarget(Split(Strip(listTypes.stdout), '\n'))
    ensures t.None? || t == Some(TextPlain)
  {
    if configuring {
      return None;
    }
    match listTypes {
      case NotFound =>
        return None;
      case Exited(code, out) =>
        var targets := Split(Strip(out), '\n');
        if code != 0 || Strip(out) == [] {
          return None;
        }
        var found := FindTarget(targets, IsTextTarget);
        return if found then Some(TextPlain) else None;
    }
  }

  /** The answer of `get_clipboard_content`, given the run of
      `wl-paste --list-types` and the run of `wl-paste --no-newline`. */
  function ReadingOf(configuring: bool, listTypes: Run, paste: Run): (r: Reading)
    ensures r.content.Some? <==> r.kind.Some?
    ensures r.content.Some? <==>
      ClipboardTypeOf(configuring, listTypes).Some? && paste.Exited? && paste.code == 0
    ensures r.content.Some? ==>
      r.content.value == Strip(paste.stdout) && r.kind.value == TextKind
  {
    if configuring || ClipboardTypeOf(configuring, listTypes).None? then Reading(None, None)
    else if paste.Exited? && paste.code == 0 then Reading(Some(Strip(paste.stdout)), Some(TextKind))
    else Reading(None, None)
  }

  /** `get_clipboard_content`. */
  method GetClipboardContent(configuring: bool, listTypes: Run, paste: Run) returns (r: Reading)
    ensures r == ReadingOf(configuring, listTypes, paste)
  {
    if configuring {
      return Reading(None, None);
    }
    var contentType := GetClipboardType(configuring, listTypes);
    if contentType.None? {
      return Reading(None, None);
    }
    if contentType.value == TextPlain {
      match paste {
        case NotFound =>
          return Reading(None, None);
        case Exited(code, out) =>
          if code != 0 {
            return Reading(None, None);
          }
          return Reading(Some(Strip(out)), Some(TextKind));
      }
    }
    return Reading(None, None);
  }

  // ---------------------------------------------------------------------
  // The history file

  /** How a call of `save_history_to_file` ends: the JSON was written in
      full; creating the directory or opening the file failed before it was
      touched; or the file was truncated by the open and the write or close
      then failed. */
  datatype SaveOutcome = Saved | NotOpened | WriteFailed

  /** What loading the history file gives after saving `history` over a
      file that loaded as `before`. A file cut short by a failed write is
      empty or an unfinished JSON array, which loads as the empty history. */
  function FileAfterSave(before: seq<Record>, history: seq<Record>, save: SaveOutcome): (after: seq<Record>)
    ensures after == history || after == before || after == []
    ensures save.Saved? ==> after == history
    ensures save.NotOpened? ==> after == before
    ensures after != before && after != history ==> save.WriteFailed?
  {
    match save
    case Saved => history
    case NotOpened => before
    case WriteFailed => []
  }

  // ---------------------------------------------------------------------
  // The deduplication rule of a clipboard check

  /** What an unsuppressed clipboard check leaves behind. */
  datatype Ingested = Ingested(history: seq<Record>, lastContent: string, appended: bool)

  /** Whether the content of a reading is usable and differs from the last
      one seen (Python truthiness: `None` and `""` are both false). */
  predicate IsFresh(r: Reading, last: string) {
    r.content.Some? && r.content.value != "" && r.content.value != last
  }

  /** The effect of `check_clipboard_changes` on the history and on
      `last_content` when neither suppression flag is set. */
  function Ingest(history: seq<Record>, last: string, r: Reading): (o: Ingested)
    ensures |history| <= |o.history| <= |history| + 1 && o.history[..|history|] == history
    ensures o.appended <==> |o.history| == |history| + 1
    ensures o.appended ==> o.history[|history|] == Record(o.lastContent, TextKind)
    ensures IsFresh(r, last) ==> o.lastContent == r.content.value
    ensures !IsFresh(r, last) ==> o == Ingested(history, last, false)
  {
    if IsFresh(r, last) then
      var c := r.content.value;
      if r.kind == Some(TextKind) && (history == [] || c != history[|history| - 1].content)
      then Ingested(history + [Record(c, TextKind)], c, true)
      else Ingested(history, c, false)
    else Ingested(history, last, false)
  }

  /** No two neighbouring records have the same content. */
  predicate NoAdjacentDuplicates(history: seq<Record>) {
    forall i :: 0 < i < |history| ==> history[i - 1].content != history[i].content
  }

  /** A check keeps every earlier record and appends at most one: a text
      record whose content is non-empty, differs from the last content seen
      and from the content of the previous last record. */
  lemma IngestAppendsAtMostOne(history: seq<Record>, last: string, r: Reading)
    ensures var o := Ingest(history, last, r);
      && |history| <= |o.history| <= |history| + 1
      && o.history[..|history|] == history
      && (o.appended <==> |o.history| == |history| + 1)
      && (o.appended ==>
            && o.history[|history|] == Record(r.content.value, TextKind)
            && r.content.value != "" && r.content.value != last
            && r.kind == Some(TextKind)
            && (history != [] ==> r.content.value != history[|history| - 1].content))
  {
    var o := Ingest(history, last, r);
    assert o.history[..|history|] == history;
  }

  /** Every fresh text content whose value is not already the last record
      is appended. */
  lemma IngestAppendsFreshText(history: seq<Record>, last: string, r: Reading)
    requires IsFresh(r, last) && r.kind == Some(TextKind)
    requires history == [] || r.content.value != history[|history| - 1].content
    ensures Ingest(history, last, r).history == history + [Record(r.content.value, TextKind)]
  {
  }

  /** `last_content` follows the clipboard whenever it holds non-empty new
      content, even when no record is appended. */
  lemma IngestTracksLastContent(history: seq<Record>, last: string, r: Reading)
    ensures Ingest(history, last, r).lastContent ==
            if IsFresh(r, last) then r.content.value else last
  {
  }

  /** Content that comes back onto the clipboard equal to the last record
      (copying from history) is not recorded again, whatever `last_content`
      was reset to. */
  lemma IngestSkipsLastRecord(history: seq<Record>, last: string, r: Reading)
    requires history != [] && r.content == Some(history[|history| - 1].content)
    ensures Ingest(history, last, r).history == history
    ensures !Ingest(history, last, r).appended
  {
  }

  /** Copying the newest record back to the clipboard (as a row copy does)
      never records it twice: its content came from `strip`, `wl-paste`
      gives the same text back, and stripping it again changes nothing. */
  lemma CopyBackAddsNothing(history: seq<Record>, last: string, listTypes: Run, pasted: string)
    requires history != [] && history[|history| - 1].content == Strip(pasted)
    ensures var back := ReadingOf(false, listTypes, Exited(0, history[|history| - 1].content));
      Ingest(history, last, back).history == history
  {
    StripIdempotent(pasted);
  }

  /** A second check that reads the same clipboard changes nothing. */
  lemma IngestIdempotent(history: seq<Record>, last: string, r: Reading)
    ensures var o := Ingest(history, last, r);
      Ingest(o.history, o.lastContent, r) == Ingested(o.history, o.lastContent, false)
  {
  }

  /** A check never creates two adjacent records with equal content. */
  lemma IngestKeepsNoAdjacentDuplicates(history: seq<Record>, last: string, r: Reading)
    requires NoAdjacentDuplicates(history)
    ensures NoAdjacentDuplicates(Ingest(history, last, r).history)
  {
  }

  /** The history after a series of unsuppressed checks. */
  function IngestAll(history: seq<Record>, last: string, readings: seq<Reading>): Ingested
    decreases |readings|
  {
    if readings == [] then Ingested(history, last, false)
    else
      var o := Ingest(history, last, readings[0]);
      var rest := IngestAll(o.history, o.lastContent, readings[1..]);
      Ingested(rest.history, rest.lastContent, o.appended || rest.appended)
  }

  /** Over any series of checks, earlier records are never changed, the
      history grows by at most one record per check, and no adjacent
      duplicate ever appears. */
  lemma {:induction false} IngestAllPreserves(history: seq<Record>, last: string, readings: seq<Reading>)
    requires NoAdjacentDuplicates(history)
    ensures var o := IngestAll(history, last, readings);
      && |history| <= |o.history| <= |history| + |readings|
      && o.history[..|history|] == history
      && NoAdjacentDuplicates(o.history)
    decreases |readings|
  {
    if readings != [] {
      var o := Ingest(history, last, readings[0]);
      IngestAppendsAtMostOne(history, last, readings[0]);
      IngestKeepsNoAdjacentDuplicates(history, last, readings[0]);
      IngestAllPreserves(o.history, o.lastContent, readings[1..]);
      var rest := IngestAll(o.history, o.lastContent, readings[1..]);
      assert rest.history[..|history|] == rest.history[..|o.history|][..|history|];
    }
  }

  /** A clipboard that keeps the same content adds at most one record, however
      many checks read it. */
  lemma {:induction false} IngestSameReadingOnce(history: seq<Record>, last: string, r: Reading, n: nat)
    ensures var o := Ingest(history, last, r);
      IngestAll(o.history, o.lastContent, seq(n, _ => r)) == Ingested(o.history, o.lastContent, false)
    decreases n
  {
    var o := Ingest(history, last, r);
    IngestIdempotent(history, last, r);
    if n > 0 {
      assert seq(n, _ => r)[1..] == seq(n - 1, _ => r);
      IngestSameReadingOnce(history, last, r, n - 1);
    }
  }

  /** The example run: with ("hello", "text") recorded, a clipboard that now
      reads "world" gets a second record, and the display shows two rows. */
  lemma HelloWorldExample(last: string)
    requires last != "world"
    ensures var o := Ingest([Record("hello", TextKind)], last, Reading(Some("world"), Some(TextKind)));
      && o.history == [Record("hello", TextKind), Record("world", TextKind)]
      && |DisplayRows(o.history)| == 2
  {
    var o := Ingest([Record("hello", TextKind)], last, Reading(Some("world"), Some(TextKind)));
    assert o.history == [Record("hello", TextKind)] + [Record("world", TextKind)];
    DisplayRowsAppend([Record("hello", TextKind)], Record("world", TextKind));
    DisplayRowsAppend([], Record("hello", TextKind));
  }

  // ---------------------------------------------------------------------
  // Display rows

  /** The preview column: at most fifty characters of the content, followed
      by "..." when it was longer, with line breaks shown as spaces. */
  function Preview(content: string): (p: string)
    ensures '\n' !in p
    ensures |p| <= PreviewLimit + |Ellipsis|
    ensures |content| <= PreviewLimit ==> |p| == |content|
    ensures |content| > PreviewLimit ==> |p| == PreviewLimit + |Ellipsis| && p[PreviewLimit..] == Ellipsis
    ensures forall k :: 0 <= k < |p| && k < PreviewLimit && k < |content| ==>
              p[k] == if content[k] == '\n' then ' ' else content[k]
  {
    var shortened := if |content| > PreviewLimit then content[..PreviewLimit] + Ellipsis else content;
    Replace(shortened, '\n', ' ')
  }

  function RowOf(r: Record): Row {
    Row(Preview(r.content), r.content)
  }

  /** The rows of the display store for a history: one per text record, in
      history order. */
  function DisplayRows(history: seq<Record>): (rows: seq<Row>)
    ensures |rows| <= |history|
    ensures forall i :: 0 <= i < |rows| ==>
              '\n' !in rows[i].preview && |rows[i].preview| <= PreviewLimit + |Ellipsis|
    decreases |history|
  {
    if history == [] then []
    else
      var last := history[|history| - 1];
      DisplayRows(history[..|history| - 1]) + if last.kind == TextKind then [RowOf(last)] else []
  }

  /** Every row shows a text record of the history. */
  lemma {:induction false} DisplayRowsFromText(history: seq<Record>)
    ensures forall i :: 0 <= i < |DisplayRows(history)| ==>
              Record(DisplayRows(history)[i].full, TextKind) in history
    decreases |history|
  {
    if history != [] {
      var init := history[..|history| - 1];
      DisplayRowsFromText(init);
      forall i | 0 <= i < |DisplayRows(init)|
        ensures Record(DisplayRows(init)[i].full, TextKind) in history
      {
        assert Record(DisplayRows(init)[i].full, TextKind) in init;
      }
    }
  }

  /** When every record is text, the rows are the records one for one, in
      order. */
  lemma DisplayRowsAllText(history: seq<Record>)
    requires forall i :: 0 <= i < |history| ==> history[i].kind == TextKind
    ensures |DisplayRows(history)| == |history|
    ensures forall i :: 0 <= i < |history| ==> DisplayRows(history)[i] == RowOf(history[i])
  {
    DisplayRowsAllTextLength(history);
    forall i | 0 <= i < |history|
      ensures DisplayRows(history)[i] == RowOf(history[i])
    {
      DisplayRowsAllTextAt(history, i);
    }
  }

  lemma {:induction false} DisplayRowsAllTextLength(history: seq<Record>)
    requires forall i :: 0 <= i < |history| ==> history[i].kind == TextKind
    ensures |DisplayRows(history)| == |history|
    decreases |history|
  {
    if history != [] {
      DisplayRowsAllTextLength(history[..|history| - 1]);
    }
  }

  lemma {:induction false} DisplayRowsAllTextAt(history: seq<Record>, i: nat)
    requires forall j :: 0 <= j < |history| ==> history[j].kind == TextKind
    requires i < |history|
    ensures |DisplayRows(history)| == |history| && DisplayRows(history)[i] == RowOf(history[i])
    decreases |history|
  {
    var init := history[..|history| - 1];
    DisplayRowsAllTextLength(history);
    DisplayRowsAllTextLength(init);
    if i < |init| {
      DisplayRowsAllTextAt(init, i);
    }
  }

  /** Appending a text record adds exactly its row at the end; a record of
      another kind adds no row. */
  lemma DisplayRowsAppend(history: seq<Record>, r: Record)
    ensures DisplayRows(history + [r]) ==
            DisplayRows(history) + if r.kind == TextKind then [RowOf(r)] else []
  {
    assert (history + [r])[..|history|] == history;
  }

  /** The text records of a history, in order: an independent statement of
      which records `update_clipboard_display` shows. */
  function TextRecords(history: seq<Record>): (t: seq<Record>)
    ensures |t| <= |history|
    ensures forall i :: 0 <= i < |t| ==> t[i].kind == TextKind && t[i] in history
    decreases |history|
  {
    if history == [] then []
    else (if history[0].kind == TextKind then [history[0]] else []) + TextRecords(history[1..])
  }

  /** The filter drops no text record. */
  lemma {:induction false} TextRecordsKeepsAllText(history: seq<Record>, i: nat)
    requires i < |history| && history[i].kind == TextKind
    ensures history[i] in TextRecords(history)
    decreases i
  {
    if i > 0 {
      TextRecordsKeepsAllText(history[1..], i - 1);
      assert history[1..][i - 1] == history[i];
    }
  }

  lemma {:induction false} TextRecordsAppend(history: seq<Record>, r: Record)
    ensures TextRecords(history + [r]) == TextRecords(history) + if r.kind == TextKind then [r] else []
    decreases |history|
  {
    var tail := if r.kind == TextKind then [r] else [];
    if history == [] {
      assert [r][1..] == [];
      assert TextRecords([r]) == tail + TextRecords([]);
    } else {
      var head := if history[0].kind == TextKind then [history[0]] else [];
      assert (history + [r])[0] == history[0];
      assert (history + [r])[1..] == history[1..] + [r];
      TextRecordsAppend(history[1..], r);
      calc {
        TextRecords(history + [r]);
        head + TextRecords(history[1..] + [r]);
        head + (TextRecords(history[1..]) + tail);
        (head + TextRecords(history[1..])) + tail;
        TextRecords(history) + tail;
      }
    }
  }

  lemma {:induction false} DisplayRowsOfTextRecords(history: seq<Record>)
    ensures DisplayRows(history) == DisplayRows(TextRecords(history))
    decreases |history|
  {
    if history != [] {
      var init := history[..|history| - 1];
      var last := history[|history| - 1];
      var texts := TextRecords(init);
      assert history == init + [last];
      DisplayRowsOfTextRecords(init);
      TextRecordsAppend(init, last);
      if last.kind == TextKind {
        var row := RowOf(last);
        DisplayRowsAppend(texts, last);
        assert DisplayRows(history) == DisplayRows(init) + [row];
        assert DisplayRows(texts + [last]) == DisplayRows(texts) + [row];
      } else {
        assert DisplayRows(history) == DisplayRows(init);
        assert TextRecords(history) == texts;
      }
    }
  }

  /** The rows are exactly the text records of the history, one row each,
      in history order; records of other kinds are skipped. */
  lemma DisplayRowsAreTextRecords(history: seq<Record>)
    ensures |DisplayRows(history)| == |TextRecords(history)|
    ensures forall i :: 0 <= i < |TextRecords(history)| ==>
              DisplayRows(history)[i] == RowOf(TextRecords(history)[i])
  {
    DisplayRowsOfTextRecords(history);
    DisplayRowsAllText(TextRecords(history));
  }

  // ---------------------------------------------------------------------
  // The IPC command

  /** What one `recv(1024)` delivers of the bytes a client sent, assuming
      they arrive together. */
  function Received(sent: seq<bv8>): (chunk: seq<bv8>)
    ensures |chunk| <= RecvBufferSize
    ensures chunk <= sent
  {
    if |sent| <= RecvBufferSize then sent else sent[..RecvBufferSize]
  }

  /** `handle_ipc` schedules a toggle only for the exact command. Decoding
      the bytes as UTF-8 gives the text "toggle" exactly when they are its
      six ASCII bytes, so the test is stated on bytes. */
  predicate ToggleRequested(chunk: seq<bv8>): (b: bool)
    ensures b <==> |chunk| == |"toggle"| && forall k :: 0 <= k < |chunk| ==> chunk[k] as int == "toggle"[k] as int
  {
    chunk == ToggleCommand
  }

  /** A connection toggles exactly when the client sent the command and
      nothing else. */
  lemma ReceivedToggle(sent: seq<bv8>)
    ensures ToggleRequested(Received(sent)) <==> sent == ToggleCommand
  {
    if |sent| > RecvBufferSize {
      assert |Received(sent)| == RecvBufferSize;
    }
  }

  /** How many of the received connections asked for a toggle. */
  function CountToggles(messages: seq<seq<bv8>>): nat
    decreases |messages|
  {
    if messages == [] then 0
    else CountToggles(messages[..|messages| - 1])
         + if ToggleRequested(Received(messages[|messages| - 1])) then 1 else 0
  }

  lemma {:induction false} CountTogglesAppend(a: seq<seq<bv8>>, b: seq<seq<bv8>>)
    ensures CountToggles(a + b) == CountToggles(a) + CountToggles(b)
    decreases |b|
  {
    if b == [] {
      assert a + b == a;
    } else {
      assert (a + b)[..|a + b| - 1] == a + b[..|b| - 1];
      assert (a + b)[|a + b| - 1] == b[|b| - 1];
      CountTogglesAppend(a, b[..|b| - 1]);
    }
  }

  predicate Odd(n: nat) {
    n % 2 == 1
  }

  // ---------------------------------------------------------------------
  // The application state

  class ClipboardHistoryApp {
    var history: seq<Record>
    var lastContent: string
    var isConfiguring: bool
    var programmaticCopy: bool
    var isVisible: bool
    /** The rows shown by the tree view. */
    var store: seq<Row>
    /** What the history file holds (what loading it would give). */
    ghost var saved: seq<Record>

    /** Starts with the loaded history, shown unless started hidden. */
    constructor (startHidden: bool, loaded: seq<Record>)
      ensures history == loaded && saved == loaded && store == DisplayRows(loaded)
      ensures lastContent == "" && !isConfiguring && !programmaticCopy
      ensures isVisible == !startHidden
    {
      isConfiguring := false;
      isVisible := !startHidden;
      programmaticCopy := false;
      history := loaded;
      saved := loaded;
      store := [];
      lastContent := "";
      new;
      var _ := UpdateClipboardDisplay();
    }

    /** `check_clipboard_changes`: one tick of the poller. Suppressed ticks
        change nothing; the others apply `Ingest` to what the clipboard holds
        and save the history file after an append. */
    method CheckClipboardChanges(listTypes: Run, paste: Run, save: SaveOutcome) returns (keepRunning: bool)
      modifies this`history, this`lastContent, this`saved
      ensures keepRunning
      ensures old(programmaticCopy || isConfiguring) ==>
        history == old(history) && lastContent == old(lastContent) && saved == old(saved)
      ensures !old(programmaticCopy || isConfiguring) ==>
        var o := Ingest(old(history), old(lastContent), ReadingOf(false, listTypes, paste));
        && history == o.history && lastContent == o.lastContent
        && saved == if o.appended then FileAfterSave(old(saved), history, save) else old(saved)
    {
      keepRunning := true;
      if programmaticCopy || isConfiguring {
        return;
      }
      var reading := GetClipboardContent(isConfiguring, listTypes, paste);
      RecordReading(reading, save);
    }

    /** The decision of `check_clipboard_changes` once the clipboard has been
        read: remember new content, append it when it is text and not already
        the last record, and then write the history file. */
    method RecordReading(reading: Reading, save: SaveOutcome)
      modifies this`history, this`lastContent, this`saved
      ensures var o := Ingest(old(history), old(lastContent), reading);
        && history == o.history && lastContent == o.lastContent
        && saved == if o.appended then FileAfterSave(old(saved), history, save) else old(saved)
    {
      if reading.content.Some? && reading.content.value != "" && reading.content.value != lastContent {
        var content := reading.content.value;
        lastContent := content;
        if reading.kind == Some(TextKind) && (history == [] || content != history[|history| - 1].content) {
          history := history + [Record(content, TextKind)];
          saved := FileAfterSave(saved, history, save);
        }
      }
    }

    /** `on_clear_clicked`: nothing changes when `wl-copy --clear` fails;
        otherwise history, last content and rows are emptied, and the file is
        emptied unless truncating it fails. */
    method OnClearClicked(clearOk: bool, truncateOk: bool)
      modifies this`history, this`lastContent, this`store, this`saved
      ensures !clearOk ==>
        history == old(history) && lastContent == old(lastContent)
        && store == old(store) && saved == old(saved)
      ensures clearOk ==>
        history == [] && lastContent == "" && store == []
        && saved == if truncateOk then [] else old(saved)
    {
      if !clearOk {
        return;
      }
      history := [];
      lastContent := "";
      var _ := UpdateClipboardDisplay();
      if truncateOk {
        saved := [];
      }
    }

    /** Hands `content` to `wl-copy`, raises the copy flag and asks for it
        to be reset after 500 ms; when `wl-copy` is missing the error
        handler lowers the flag again and no reset is scheduled. */
    method CopyToClipboard(content: string, wlCopyFound: bool) returns (copied: Option<string>, resetAfterMs: Option<nat>)
      modifies this`programmaticCopy
      ensures copied == if wlCopyFound then Some(content) else None
      ensures resetAfterMs == if wlCopyFound then Some(CopyResetMs) else None
      ensures programmaticCopy == wlCopyFound
    {
      programmaticCopy := true;
      if wlCopyFound {
        copied, resetAfterMs := Some(content), Some(CopyResetMs);
      } else {
        copied, resetAfterMs := None, None;
        programmaticCopy := false;
      }
    }

    /** `on_copy_clicked`: copies the full content of the selected row,
        unless a flag is set or nothing is selected. */
    method OnCopyClicked(selected: Option<nat>, wlCopyFound: bool) returns (copied: Option<string>, resetAfterMs: Option<nat>)
      requires selected.Some? ==> selected.value < |store|
      modifies this`programmaticCopy
      ensures old(programmaticCopy) || isConfiguring || selected.None? ==>
        copied.None? && resetAfterMs.None? && programmaticCopy == old(programmaticCopy)
      ensures !old(programmaticCopy) && !isConfiguring && selected.Some? ==>
        && copied == (if wlCopyFound then Some(store[selected.value].full) else None)
        && resetAfterMs == (if wlCopyFound then Some(CopyResetMs) else None)
        && programmaticCopy == wlCopyFound
    {
      if programmaticCopy || isConfiguring {
        return None, None;
      }
      if selected.None? {
        return None, None;
      }
      copied, resetAfterMs := CopyToClipboard(store[selected.value].full, wlCopyFound);
    }

    /** `on_row_activated`: as a copy of the activated row; a path that names
        no row raises before anything changes. */
    method OnRowActivated(row: nat, wlCopyFound: bool) returns (copied: Option<string>, resetAfterMs: Option<nat>)
      modifies this`programmaticCopy
      ensures old(programmaticCopy) || isConfiguring || row >= |store| ==>
        copied.None? && resetAfterMs.None? && programmaticCopy == old(programmaticCopy)
      ensures !old(programmaticCopy) && !isConfiguring && row < |store| ==>
        && copied == (if wlCopyFound then Some(store[row].full) else None)
        && resetAfterMs == (if wlCopyFound then Some(CopyResetMs) else None)
        && programmaticCopy == wlCopyFound
    {
      if programmaticCopy || isConfiguring {
        return None, None;
      }
      if row >= |store| {
        return None, None;
      }
      copied, resetAfterMs := CopyToClipboard(store[row].full, wlCopyFound);
    }

    /** `reset_programmatic_copy`, run once when its delay expires. */
    method ResetProgrammaticCopy() returns (repeat: bool)
      modifies this`programmaticCopy
      ensures !programmaticCopy && !repeat
    {
      programmaticCopy := false;
      repeat := false;
    }

    /** `on_configure_event`: suppresses polling and asks for a reset after
        300 ms; the event propagates. */
    method OnConfigureEvent() returns (handled: bool, resetAfterMs: nat)
      modifies this`isConfiguring
      ensures isConfiguring && !handled && resetAfterMs == ConfigureResetMs
    {
      isConfiguring := true;
      handled, resetAfterMs := false, ConfigureResetMs;
    }

    /** `on_focus_event`: as a configure event, with a 200 ms reset. */
    method OnFocusEvent() returns (handled: bool, resetAfterMs: nat)
      modifies this`isConfiguring
      ensures isConfiguring && !handled && resetAfterMs == FocusResetMs
    {
      isConfiguring := true;
      handled, resetAfterMs := false, FocusResetMs;
    }

    /** `reset_configuring`, run once when its delay expires. */
    method ResetConfiguring() returns (repeat: bool)
      modifies this`isConfiguring
      ensures !isConfiguring && !repeat
    {
      isConfiguring := false;
      repeat := false;
    }

    /** `toggle_visibility`: hides a shown window and shows a hidden one. */
    method ToggleVisibility() returns (repeat: bool)
      modifies this`isVisible
      ensures isVisible == !old(isVisible) && !repeat
    {
      if isVisible {
        isVisible := false;
      } else {
        isVisible := true;
      }
      repeat := false;
    }

    /** The server loop of `handle_ipc` over a series of connections, each
        flip run on the GUI context in order: the window ends flipped once
        per toggle command, so an even number of commands restores it. */
    method ServeConnections(messages: seq<seq<bv8>>)
      modifies this`isVisible
      ensures isVisible == (old(isVisible) != Odd(CountToggles(messages)))
    {
      for i := 0 to |messages|
        invariant isVisible == (old(isVisible) != Odd(CountToggles(messages[..i])))
      {
        assert messages[..i + 1][..i] == messages[..i];
        if ToggleRequested(Received(messages[i])) {
          var _ := ToggleVisibility();
        }
      }
      assert messages[..|messages|] == messages;
    }

    /** `on_delete_event`: closing the window saves the whole history to the
        file and lets the window be destroyed. */
    method OnDeleteEvent(save: SaveOutcome) returns (handled: bool)
      modifies this`saved
      ensures saved == FileAfterSave(old(saved), history, save)
      ensures save.Saved? ==> saved == history
      ensures !handled
    {
      saved := FileAfterSave(saved, history, save);
      handled := false;
    }

    /** `update_clipboard_display`: rebuilds the rows from the history. */
    method UpdateClipboardDisplay() returns (repeat: bool)
      modifies this`store
      ensures store == DisplayRows(history) && !repeat
    {
      store := [];
      for i := 0 to |history|
        invariant store == DisplayRows(history[..i])
      {
        assert history[..i + 1][..i] == history[..i];
        var r := history[i];
        if r.kind == TextKind {
          store := store + [Row(Preview(r.content), r.content)];
        }
      }
      assert history[..|history|] == history;
      repeat := false;
    }
  }
}

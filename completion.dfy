/**
 * The `@`-triggered completion of `provideCompletionItems`
 * (src/extension.ts:43-95): find the typed span, derive a filter, select
 * index entries and build one completion item per selected entry.
 */
module Completion {
  import opened Seqs
  import opened Strings
  import opened Host
  import opened Links
  import opened MdIndexing

  /**
   * The span a completion replaces: the last `@` before the cursor at
   * `atIdx`, a `!` just before it when `includeBang` holds, the span's first
   * column `startCol` and its text `span` up to the cursor.
   */
  datatype Trigger = Trigger(atIdx: nat, includeBang: bool, startCol: nat, span: string)

  /** The columns `[startCol, endCol)` of the cursor's line that an item replaces. */
  datatype TextRange = TextRange(startCol: nat, endCol: nat)

  /** The fields of a `vscode.CompletionItem` the extension sets; its kind is always `File`. */
  datatype CompletionItem = CompletionItem(
    labelText: string,
    detail: string,
    filterText: string,
    sortText: string,
    range: TextRange,
    newText: string)

  /** `lineText.slice(0, character)`: JavaScript clamps the end to the length. */
  function BeforeCursor(lineText: string, character: nat): (r: string)
    ensures r <= lineText
    ensures |r| == if character <= |lineText| then character else |lineText|
  {
    if character <= |lineText| then lineText[..character] else lineText
  }

  /** `s.lastIndexOf(c)`: the index of the last `c` in `s`, or -1 when there is none. */
  function LastIndexOf(s: string, c: char): (r: int)
    ensures -1 <= r < |s|
    ensures r == -1 <==> c !in s
    ensures r >= 0 ==> s[r] == c && c !in s[r + 1..]
    decreases |s|
  {
    if s == [] then -1
    else if s[|s| - 1] == c then |s| - 1
    else
      var k := LastIndexOf(s[..|s| - 1], c);
      assert k >= 0 ==> s[k + 1..] == s[..|s| - 1][k + 1..] + [s[|s| - 1]];
      k
  }

  /** `\w` of a JavaScript regular expression without the `u` flag: ASCII letters, digits and `_`. */
  predicate IsWordChar(c: char)
  {
    ('a' <= c <= 'z') || ('A' <= c <= 'Z') || ('0' <= c <= '9') || c == '_'
  }

  /** The character class `[\w\-_. \/\\]` of the span pattern. */
  predicate IsSpanChar(c: char)
  {
    IsWordChar(c) || c == '-' || c == '_' || c == '.' || c == ' ' || c == '/' || c == '\\'
  }

  predicate AllSpanChars(s: string)
  {
    forall i :: 0 <= i < |s| ==> IsSpanChar(s[i])
  }

  /** The regular expression `^!?@[\w\-_. \/\\]*$`. */
  predicate MatchesSpanPattern(s: string)
  {
    (|s| >= 1 && s[0] == '@' && AllSpanChars(s[1..])) ||
    (|s| >= 2 && s[0] == '!' && s[1] == '@' && AllSpanChars(s[2..]))
  }

  /** Some `@` before the cursor is followed, up to the cursor, only by span characters. */
  predicate HasTrigger(before: string)
  {
    exists k :: 0 <= k < |before| && before[k] == '@' && AllSpanChars(before[k + 1..])
  }

  /**
   * The span computation of `provideCompletionItems`: `None` where the
   * source returns `undefined`.
   */
  function ParseTrigger(before: string): (r: Option<Trigger>)
    ensures '@' !in before ==> r.None?
    ensures r.Some? ==>
      var t := r.value;
      t.atIdx < |before| && before[t.atIdx] == '@' && '@' !in before[t.atIdx + 1..] &&
      t.includeBang == (t.atIdx > 0 && before[t.atIdx - 1] == '!') &&
      t.startCol == (if t.includeBang then t.atIdx - 1 else t.atIdx) &&
      t.span == before[t.startCol..] &&
      AllSpanChars(before[t.atIdx + 1..])
  {
    var atIdx := LastIndexOf(before, '@');
    if atIdx == -1 then None
    else
      var includeBang := atIdx > 0 && before[atIdx - 1] == '!';
      var startCol := if includeBang then atIdx - 1 else atIdx;
      var span := before[startCol..];
      if !MatchesSpanPattern(span) then None
      else
        assert span[startCol - startCol..] == span;
        assert if includeBang then span[2..] == before[atIdx + 1..] else span[1..] == before[atIdx + 1..];
        Some(Trigger(atIdx, includeBang, startCol, span))
  }

  /**
   * A completion is offered exactly when some `@` before the cursor is
   * followed only by span characters; since `@` is not one of them, that
   * `@` is the last one.
   */
  lemma TriggerIff(before: string)
    ensures ParseTrigger(before).Some? <==> HasTrigger(before)
  {
    var atIdx := LastIndexOf(before, '@');
    if HasTrigger(before) {
      var k :| 0 <= k < |before| && before[k] == '@' && AllSpanChars(before[k + 1..]);
      assert before[k] in before;
      assert k == atIdx;
      var includeBang := atIdx > 0 && before[atIdx - 1] == '!';
      var startCol := if includeBang then atIdx - 1 else atIdx;
      var span := before[startCol..];
      if includeBang {
        assert span[2..] == before[atIdx + 1..];
      } else {
        assert span[1..] == before[atIdx + 1..];
      }
      assert MatchesSpanPattern(span);
    }
    if ParseTrigger(before).Some? {
      assert before[atIdx] == '@';
    }
  }

  /** `span.replace(/^!@|^@/, '')`: drop a leading `!@`, or else a leading `@`. */
  function StripTriggerPrefix(span: string): string
  {
    if StartsWith(span, "!@") then span[2..]
    else if StartsWith(span, "@") then span[1..]
    else span
  }

  /** The `typedFilter` of the source: the span without its trigger, lowered. */
  function TypedFilter(span: string): string
  {
    ToLower(StripTriggerPrefix(span))
  }

  /**
   * The span pattern holds exactly when the span starts with `!@` or `@` and
   * what follows the trigger is made of span characters; that rest then holds
   * no `@`.
   */
  lemma SpanPatternStrip(s: string)
    ensures MatchesSpanPattern(s) <==>
      (StartsWith(s, "!@") || StartsWith(s, "@")) && AllSpanChars(StripTriggerPrefix(s))
    ensures MatchesSpanPattern(s) ==> '@' !in StripTriggerPrefix(s)
  {
    var rest := StripTriggerPrefix(s);
    if |s| >= 2 && s[0] == '!' && s[1] == '@' {
      assert s[..2] == "!@";
      assert rest == s[2..];
    } else if |s| >= 1 && s[0] == '@' {
      assert s[..1] == "@";
      assert rest == s[1..];
    }
    if AllSpanChars(rest) {
      forall i | 0 <= i < |rest| ensures rest[i] != '@' {
        assert IsSpanChar(rest[i]);
      }
    }
  }

  /** Lowering keeps a span character a span character and leaves no upper-case letter. */
  lemma LowerSpanChars(s: string)
    requires AllSpanChars(s)
    ensures forall i :: 0 <= i < |ToLower(s)| ==> IsSpanChar(ToLower(s)[i]) && !('A' <= ToLower(s)[i] <= 'Z')
  {
    forall i | 0 <= i < |ToLower(s)|
      ensures IsSpanChar(ToLower(s)[i]) && !('A' <= ToLower(s)[i] <= 'Z')
    {
      assert ToLower(s)[i] == LowerChar(s[i]);
      assert IsSpanChar(s[i]);
    }
  }

  /** Stripping the trigger from `@typed` or `!@typed` leaves `typed`. */
  lemma StripTriggerOf(typed: string, bang: bool)
    ensures StripTriggerPrefix((if bang then "!@" else "@") + typed) == typed
  {
    var span := (if bang then "!@" else "@") + typed;
    if bang {
      assert span[..2] == "!@" && span[2..] == typed;
    } else {
      assert span[0] != '!' && span[..1] == "@" && span[1..] == typed;
    }
  }

  /** A parsed span is its trigger (`@` or `!@`) followed by what was typed after the `@`. */
  lemma SpanLayout(before: string, t: Trigger)
    requires ParseTrigger(before) == Some(t)
    ensures t.atIdx < |before|
    ensures t.span == (if t.includeBang then "!@" else "@") + before[t.atIdx + 1..]
    ensures AllSpanChars(before[t.atIdx + 1..])
  {
  }

  /**
   * The filter is what was typed after the last `@`, lowered; it holds
   * only span characters and no upper-case letter.
   */
  lemma FilterIsTypedText(before: string, t: Trigger)
    requires ParseTrigger(before) == Some(t)
    ensures TypedFilter(t.span) == ToLower(before[t.atIdx + 1..])
    ensures forall i :: 0 <= i < |TypedFilter(t.span)| ==>
      IsSpanChar(TypedFilter(t.span)[i]) && !('A' <= TypedFilter(t.span)[i] <= 'Z')
  {
    SpanLayout(before, t);
    var typed := before[t.atIdx + 1..];
    StripTriggerOf(typed, t.includeBang);
    LowerSpanChars(typed);
  }

  /** The test of the `mdIndex.filter` callback. */
  predicate Selects(filter: string, e: MdEntry)
  {
    filter == [] || Contains(ToLower(e.filename), filter) || Contains(ToLower(e.relativePath), filter)
  }

  /** `candidates`: the index entries the filter selects, in index order. */
  function Candidates(index: seq<MdEntry>, filter: string): seq<MdEntry>
  {
    Filter(index, e => Selects(filter, e))
  }

  /**
   * An empty filter selects every entry; otherwise exactly those entries
   * whose lowered file name or relative path has the filter at some offset,
   * in index order.
   */
  lemma CandidatesSpec(index: seq<MdEntry>, filter: string)
    ensures filter == [] ==> Candidates(index, filter) == index
    ensures forall e :: e in Candidates(index, filter) <==>
      e in index && (Occurs(ToLower(e.filename), filter) || Occurs(ToLower(e.relativePath), filter))
    ensures IsSubseq(Candidates(index, filter), index)
    ensures forall e: MdEntry ::
      var selected := Occurs(ToLower(e.filename), filter) || Occurs(ToLower(e.relativePath), filter);
      multiset(Candidates(index, filter))[e] == if selected then multiset(index)[e] else 0
  {
    assert forall e :: e in Candidates(index, filter) <==> e in index && Selects(filter, e);
    FilterMultiset(index, e => Selects(filter, e));
    forall e | e in index
      ensures Selects(filter, e) <==> Occurs(ToLower(e.filename), filter) || Occurs(ToLower(e.relativePath), filter)
    {
      ContainsAt(ToLower(e.filename), filter);
      ContainsAt(ToLower(e.relativePath), filter);
      if filter == [] {
        assert OccursAt(ToLower(e.filename), filter, 0);
      }
    }
  }

  /** Typing `Check @Re`: the span is `@Re` from column 6 and the filter is `re`. */
  lemma CheckReTrigger()
    ensures ParseTrigger("Check @Re") == Some(Trigger(6, false, 6, "@Re"))
    ensures TypedFilter("@Re") == "re"
  {
    assert LastIndexOf("Check @Re", '@') == 6 by {
      assert LastIndexOf("Check @R", '@') == 6;
    }
    assert "Check @Re"[6..] == "@Re";
    assert MatchesSpanPattern("@Re") by {
      assert "@Re"[1..] == "Re";
    }
    assert TypedFilter("@Re") == "re" by {
      assert StripTriggerPrefix("@Re") == "Re";
      assert ToLower("Re") == "re";
    }
  }

  /** An entry whose lowered file name starts with the filter is selected. */
  lemma SelectsNamePrefix(filter: string, e: MdEntry)
    requires StartsWith(ToLower(e.filename), filter)
    ensures Selects(filter, e)
  {
  }

  lemma LowerStartsWithRe(name: string)
    requires name == "Readme.md" || name == "Requirements.md"
    ensures StartsWith(ToLower(name), "re")
  {
    var low := ToLower(name);
    assert low[0] == 'r' && low[1] == 'e';
    assert low[..2] == "re";
  }

  /** The filter `re` selects an entry named `Readme.md` or `Requirements.md`. */
  lemma ReSelectsReadmeAndRequirements(e: MdEntry)
    requires e.filename == "Readme.md" || e.filename == "Requirements.md"
    ensures Selects("re", e)
  {
    LowerStartsWithRe(e.filename);
    SelectsNamePrefix("re", e);
  }

  /** A line with no `@` before the cursor gets no completion. */
  lemma NoAtNoCompletion(lineText: string, character: nat)
    requires '@' !in BeforeCursor(lineText, character)
    ensures !HasTrigger(BeforeCursor(lineText, character))
  {
    TriggerIff(BeforeCursor(lineText, character));
  }

  /** The fields the source gives the item for entry `e`. */
  predicate ItemFor(it: CompletionItem, e: MdEntry, t: Trigger, character: nat, doc: Uri, lib: PathLib)
  {
    it.labelText == e.filename &&
    it.detail == e.relativePath &&
    it.filterText == t.span + " " + e.filename + " " + e.relativePath &&
    it.sortText == "a_" + e.filename &&
    it.range == TextRange(t.startCol, character) &&
    it.newText == BuildMarkdownLink(e.filename, e.uri, doc, t.includeBang, lib)
  }

  /**
   * The loop of `provideCompletionItems` that pushes one item per candidate:
   * the items follow the candidates one for one, in order.
   */
  method BuildItems(candidates: seq<MdEntry>, t: Trigger, character: nat, doc: Uri, lib: PathLib)
    returns (items: seq<CompletionItem>)
    ensures |items| == |candidates|
    ensures forall i :: 0 <= i < |candidates| ==> ItemFor(items[i], candidates[i], t, character, doc, lib)
  {
    var replaceRange := TextRange(t.startCol, character);
    items := [];
    for i := 0 to |candidates|
      invariant |items| == i
      invariant forall j :: 0 <= j < i ==> ItemFor(items[j], candidates[j], t, character, doc, lib)
    {
      var e := candidates[i];
      var it := CompletionItem(
        e.filename,
        e.relativePath,
        t.span + " " + e.filename + " " + e.relativePath,
        "a_" + e.filename,
        replaceRange,
        BuildMarkdownLink(e.filename, e.uri, doc, t.includeBang, lib));
      assert ItemFor(it, e, t, character, doc, lib);
      items := items + [it];
      assert items[i] == it;
    }
  }

  /**
   * `provideCompletionItems(document, position)` over the index snapshot
   * `index`, with `lineText` the cursor's line, `character` its column and
   * `doc` the edited document's URI: `None` where the source returns
   * nothing, otherwise one item per candidate in candidate order.
   */
  method ProvideCompletionItems(lineText: string, character: nat, index: seq<MdEntry>, doc: Uri, lib: PathLib)
    returns (result: Option<seq<CompletionItem>>)
    ensures result.None? <==> !HasTrigger(BeforeCursor(lineText, character))
    ensures result.Some? ==>
      ParseTrigger(BeforeCursor(lineText, character)).Some? &&
      var t := ParseTrigger(BeforeCursor(lineText, character)).value;
      var candidates := Candidates(index, TypedFilter(t.span));
      |result.value| == |candidates| &&
      forall i :: 0 <= i < |candidates| ==> ItemFor(result.value[i], candidates[i], t, character, doc, lib)
  {
    var beforeCursor := BeforeCursor(lineText, character);
    TriggerIff(beforeCursor);
    var trigger := ParseTrigger(beforeCursor);
    if trigger.None? {
      return None;
    }
    var t := trigger.value;
    var typedFilter := TypedFilter(t.span);
    var candidates := Candidates(index, typedFilter);
    var items := BuildItems(candidates, t, character, doc, lib);
    return Some(items);
  }
}

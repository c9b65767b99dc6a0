/** `backfill_translated`: read `msgid|||msgstr` lines into a map, then
    write each translation into the matching live entry, clearing `fuzzy`. */
module BackfillTranslated {
  import opened Wrappers
  import opened Seqs
  import opened PyStr
  import opened PoCatalogue
  import opened ExtractUntranslated

  /** `line.startswith('/')`: a comment line of the `.tmp` file. */
  predicate IsCommentLine(line: string)
  {
    |line| > 0 && line[0] == '/'
  }

  /** One line of the `.tmp` file (see `ParseTmpLineSpec`). */
  function ParseTmpLine(line: string): Option<(string, string)>
  {
    if IsCommentLine(line) || Strip(line) == [] then None
    else
      match SplitOnce(line, TMP_SEPARATOR)
      case None => None
      case Some((msgid, rest)) => Some((msgid, Strip(rest)))
  }

  /** Comment lines, blank lines and lines without the separator give
      nothing; otherwise the raw text before the FIRST separator is the msgid
      and the stripped rest of the line is its translation. */
  lemma ParseTmpLineSpec(line: string)
    ensures ParseTmpLine(line).None? <==>
      IsCommentLine(line) || AllSpace(line) || forall k :: 0 <= k ==> !OccursAt(line, TMP_SEPARATOR, k)
    ensures ParseTmpLine(line).Some? ==>
      var (msgid, msgstr) := ParseTmpLine(line).value;
      && msgid + TMP_SEPARATOR <= line
      && (forall k :: 0 <= k < |msgid| ==> !OccursAt(line, TMP_SEPARATOR, k))
      && msgstr == Strip(line[|msgid| + |TMP_SEPARATOR|..])
  {
    StripSpec(line);
    if !IsCommentLine(line) && Strip(line) != [] {
      match SplitOnce(line, TMP_SEPARATOR)
      case None =>
      case Some((msgid, rest)) =>
        assert line == (msgid + TMP_SEPARATOR) + rest;
        assert line[|msgid| + |TMP_SEPARATOR|..] == rest;
    }
  }

  /** The parse of every line, in file order. */
  function ParsedLines(lines: seq<string>): (r: seq<Option<(string, string)>>)
    ensures |r| == |lines|
    decreases |lines|
  {
    if lines == [] then []
    else ParsedLines(lines[..|lines| - 1]) + [ParseTmpLine(lines[|lines| - 1])]
  }

  lemma {:induction false} ParsedLinesAt(lines: seq<string>, k: int)
    requires 0 <= k < |lines|
    ensures ParsedLines(lines)[k] == ParseTmpLine(lines[k])
    decreases |lines|
  {
    var n := |lines| - 1;
    if k < n {
      ParsedLinesAt(lines[..n], k);
    }
  }

  /** A parsed line that gives a translation for `msgid`. */
  predicate Defines(p: Option<(string, string)>, msgid: string)
  {
    p.Some? && p.value.0 == msgid
  }

  /** The dict filled from parsed lines in order, a later line overwriting an
      earlier one with the same msgid. */
  function Gather(parsed: seq<Option<(string, string)>>): map<string, string>
    decreases |parsed|
  {
    if parsed == [] then map[]
    else
      var m := Gather(parsed[..|parsed| - 1]);
      match parsed[|parsed| - 1]
      case None => m
      case Some((msgid, msgstr)) => m[msgid := msgstr]
  }

  /** The `translations` dict `backfill_translated` builds from the lines. */
  function Translations(lines: seq<string>): map<string, string>
  {
    Gather(ParsedLines(lines))
  }

  /** The line loop of `backfill_translated`. */
  method ReadTranslations(lines: seq<string>) returns (translations: map<string, string>)
    ensures translations == Translations(lines)
  {
    translations := map[];
    var i := 0;
    while i < |lines|
      invariant 0 <= i <= |lines|
      invariant translations == Gather(ParsedLines(lines[..i]))
    {
      var line := lines[i];
      var parts := ParseTmpLine(line);
      assert lines[..i + 1][..i] == lines[..i];
      GatherSnoc(ParsedLines(lines[..i]), parts);
      if parts.Some? {
        var (msgid, msgstr) := parts.value;
        translations := translations[msgid := msgstr];
      }
      i := i + 1;
    }
    assert lines[..i] == lines;
  }

  /** One more line updates the dict with what it parses to, if anything. */
  lemma GatherSnoc(parsed: seq<Option<(string, string)>>, p: Option<(string, string)>)
    ensures Gather(parsed + [p]) == if p.Some? then Gather(parsed)[p.value.0 := p.value.1] else Gather(parsed)
  {
    assert (parsed + [p])[..|parsed|] == parsed;
  }

  /** A msgid has a translation iff some line defines it. */
  lemma {:induction false} GatherKeys(parsed: seq<Option<(string, string)>>, msgid: string)
    ensures msgid in Gather(parsed) <==> exists i :: 0 <= i < |parsed| && Defines(parsed[i], msgid)
    decreases |parsed|
  {
    if parsed != [] {
      var n := |parsed| - 1;
      var prefix := parsed[..n];
      GatherKeys(prefix, msgid);
      if exists i :: 0 <= i < n && Defines(prefix[i], msgid) {
        var i :| 0 <= i < n && Defines(prefix[i], msgid);
        assert parsed[i] == prefix[i];
      }
      if exists i :: 0 <= i < n && Defines(parsed[i], msgid) {
        var i :| 0 <= i < n && Defines(parsed[i], msgid);
        assert prefix[i] == parsed[i];
      }
    }
  }

  /** When several lines define the same msgid, the last one wins. */
  lemma {:induction false} LastLineWins(parsed: seq<Option<(string, string)>>, i: int)
    requires 0 <= i < |parsed| && parsed[i].Some?
    requires forall j :: i < j < |parsed| ==> !Defines(parsed[j], parsed[i].value.0)
    ensures parsed[i].value.0 in Gather(parsed)
    ensures Gather(parsed)[parsed[i].value.0] == parsed[i].value.1
    decreases |parsed|
  {
    var n := |parsed| - 1;
    if i < n {
      var prefix := parsed[..n];
      assert prefix[i] == parsed[i];
      forall j | i < j < |prefix| ensures !Defines(prefix[j], prefix[i].value.0) {
        assert prefix[j] == parsed[j];
      }
      LastLineWins(prefix, i);
      assert !Defines(parsed[n], parsed[i].value.0);
    }
  }

  /** A line that parses to nothing can be dropped anywhere in the file. */
  lemma {:induction false} SkippedLineAddsNothing(before: seq<Option<(string, string)>>, after: seq<Option<(string, string)>>)
    ensures Gather(before + [None] + after) == Gather(before + after)
    decreases |after|
  {
    if after == [] {
      assert (before + [None])[..|before|] == before;
      assert before + [None] + after == before + [None];
      assert before + after == before;
    } else {
      var n := |after| - 1;
      var a := before + [None] + after;
      var b := before + after;
      assert a[..|a| - 1] == before + [None] + after[..n];
      assert b[..|b| - 1] == before + after[..n];
      assert a[|a| - 1] == after[n] == b[|b| - 1];
      SkippedLineAddsNothing(before, after[..n]);
    }
  }

  /** A msgid the `.tmp` line format carries intact: no line break, no
      separator, no trailing `|` (it would merge with the separator), and no
      leading `/` (the line would read as a comment). */
  predicate TmpSafe(m: string)
  {
    && '\n' !in m && '\r' !in m
    && (forall k :: 0 <= k < |m| ==> !OccursAt(m, TMP_SEPARATOR, k))
    && (m == [] || (m[0] != '/' && m[|m| - 1] != '|'))
  }

  /** The first separator after a safe prefix is the one that follows it. */
  lemma ParseSafePrefix(p: string, tail: string)
    requires TmpSafe(p)
    ensures ParseTmpLine(p + TMP_SEPARATOR + tail) == Some((p, Strip(tail)))
  {
    var line := p + TMP_SEPARATOR + tail;
    assert line[|p|] == '|';
    assert !AllSpace(line);
    StripSpec(line);
    assert !IsCommentLine(line) by {
      if p == [] {
        assert line[0] == '|';
      } else {
        assert line[0] == p[0];
      }
    }
    forall k | 0 <= k < |p| ensures !OccursAt(line, TMP_SEPARATOR, k) {
      if k + 3 <= |p| {
        assert line[k..k + 3] == p[k..k + 3];
        assert !OccursAt(p, TMP_SEPARATOR, k);
      } else {
        assert line[|p| - 1] == p[|p| - 1];
        assert line[k..k + 3][|p| - 1 - k] == line[|p| - 1];
      }
    }
    assert line[|p|..|p| + 3] == TMP_SEPARATOR;
    assert OccursAt(line, TMP_SEPARATOR, |p|);
    var split := SplitOnce(line, TMP_SEPARATOR);
    assert split.Some?;
    var msgid := split.value.0;
    assert |msgid| == |p| by {
      assert OccursAt(line, TMP_SEPARATOR, |msgid|);
    }
    assert msgid == line[..|p|] == p;
    assert split.value.1 == tail;
  }

  /** The line written for a safe msgid reads back as that msgid with an
      empty translation. */
  lemma ParseWrittenLine(m: string)
    requires TmpSafe(m)
    ensures ParseTmpLine(TmpLine(m)) == Some((m, ""))
  {
    ParseSafePrefix(m, "\n");
    assert AllSpace("\n");
  }

  lemma {:induction false} SerializeHasNoCarriageReturn(ids: seq<string>)
    requires forall id :: id in ids ==> '\r' !in id
    ensures '\r' !in Serialize(ids)
    decreases |ids|
  {
    if ids != [] {
      var n := |ids| - 1;
      assert forall id :: id in ids[..n] ==> id in ids;
      SerializeHasNoCarriageReturn(ids[..n]);
      assert ids[n] in ids;
      assert '\r' !in TmpLine(ids[n]);
    }
  }

  lemma {:induction false} GatherWritten(parsed: seq<Option<(string, string)>>, ids: seq<string>)
    requires |parsed| == |ids|
    requires forall k :: 0 <= k < |ids| ==> parsed[k] == Some((ids[k], ""))
    ensures Gather(parsed).Keys == Elems(ids)
    ensures forall x :: x in Gather(parsed) ==> Gather(parsed)[x] == ""
    decreases |parsed|
  {
    if parsed != [] {
      var n := |parsed| - 1;
      GatherWritten(parsed[..n], ids[..n]);
      assert ids == ids[..n] + [ids[n]];
      assert Elems(ids) == Elems(ids[..n]) + {ids[n]};
    }
  }

  /** Round trip: the file `extract_untranslated` writes for safe msgids
      reads back as exactly those msgids, each mapped to the empty string. */
  lemma RoundTrip(ids: seq<string>)
    requires forall id :: id in ids ==> TmpSafe(id)
    ensures Translations(Lines(UniversalNewlines(Serialize(ids)))).Keys == Elems(ids)
    ensures forall x :: x in Translations(Lines(UniversalNewlines(Serialize(ids)))) ==>
      Translations(Lines(UniversalNewlines(Serialize(ids))))[x] == ""
  {
    SerializeHasNoCarriageReturn(ids);
    SerializedLines(ids);
    var lines := Lines(Serialize(ids));
    var parsed := ParsedLines(lines);
    forall k | 0 <= k < |ids| ensures parsed[k] == Some((ids[k], "")) {
      assert ids[k] in ids;
      assert lines[k] == TmpLine(ids[k]);
      ParsedLinesAt(lines, k);
      ParseWrittenLine(ids[k]);
    }
    GatherWritten(parsed, ids);
  }

  /** A msgid that ends in `|` is read back without it: the written line
      gives the msgid minus its last `|`, translated as `|`. */
  lemma TrailingBarNotRecovered(p: string)
    requires TmpSafe(p)
    ensures ParseTmpLine(TmpLine(p + "|")) == Some((p, "|"))
  {
    assert TmpLine(p + "|") == p + TMP_SEPARATOR + "|\n";
    ParseSafePrefix(p, "|\n");
    assert Strip("|\n") == "|" by {
      assert LStrip("|\n") == "|\n";
      assert "|\n"[..1] == "|";
      assert RStrip("|\n") == RStrip("|");
    }
  }

  /** The comparison key of an entry: one leading "\n" is dropped, but only
      when something follows it and that is not a second "\n". */
  function NormalizeMsgid(msgid: string): (r: string)
    ensures r == msgid || "\n" + r == msgid
    ensures r != msgid <==> |msgid| > 1 && msgid[0] == '\n' && msgid[1] != '\n'
    ensures r != msgid ==> r != [] && r[0] != '\n'
  {
    if |msgid| > 0 && msgid[0] == '\n' && |msgid| > 1 && msgid[1] != '\n' then
      assert "\n" + msgid[1..] == msgid;
      msgid[1..]
    else msgid
  }

  /** A msgid that starts with one newline is written over two lines; the
      first reads as blank and is skipped, the second carries the rest, which
      is exactly the normalised msgid of the entry. */
  lemma RoundTripLeadingNewline(m: string)
    requires TmpSafe(m) && m != []
    ensures Translations(Lines(UniversalNewlines(Serialize(["\n" + m])))) == map[m := ""]
    ensures NormalizeMsgid("\n" + m) == m
  {
    LeadingNewlineLines(m);
    var lines: seq<string> := ["\n", TmpLine(m)];
    var blank: Option<(string, string)> := None;
    assert ParseTmpLine("\n") == blank by {
      assert LStrip("\n") == LStrip("");
    }
    ParseWrittenLine(m);
    assert lines[..1] == ["\n"];
    assert ["\n"][..0] == [];
    var none: seq<Option<(string, string)>> := [];
    assert ParsedLines(["\n"]) == none + [blank];
    assert ParsedLines(lines) == [blank] + [Some((m, ""))];
    GatherSnoc([blank], Some((m, "")));
    GatherSnoc(none, blank);
    assert none + [blank] == [blank];
    assert m[0] != '\n';
    assert "\n" + m != m;
  }

  /** The text written for "\n" + m reads as a blank line and the line of `m`. */
  lemma LeadingNewlineLines(m: string)
    requires TmpSafe(m)
    ensures UniversalNewlines(Serialize(["\n" + m])) == Serialize(["\n" + m])
    ensures Lines(Serialize(["\n" + m])) == ["\n", TmpLine(m)]
  {
    var line := m + TMP_SEPARATOR;
    var text := "\n" + (line + "\n");
    assert Serialize(["\n" + m]) == text by {
      SerializeCons("\n" + m, []);
      assert ["\n" + m] + [] == ["\n" + m];
    }
    assert '\r' !in line;
    assert '\r' !in text;
    assert '\n' !in line;
    LinesCons("", line + "\n");
    assert "" + "\n" + (line + "\n") == text;
    LinesCons(line, "");
    assert line + "\n" + "" == line + "\n" == TmpLine(m);
  }

  /** `flags.remove(x)` when `x` is in the list: drops its first occurrence. */
  function RemoveFirst(xs: seq<string>, x: string): (r: seq<string>)
    requires x in xs
    ensures |r| == |xs| - 1
    ensures multiset(r) == multiset(xs) - multiset{x}
  {
    if xs[0] == x then
      assert xs == [x] + xs[1..];
      xs[1..]
    else
      assert xs == [xs[0]] + xs[1..];
      [xs[0]] + RemoveFirst(xs[1..], x)
  }

  /** The position of the first `x` in the list: `xs.index(x)`. */
  function FirstIndex(xs: seq<string>, x: string): (k: nat)
    requires x in xs
    ensures k < |xs| && xs[k] == x && x !in xs[..k]
  {
    if xs[0] == x then 0
    else
      assert xs == [xs[0]] + xs[1..];
      var j := FirstIndex(xs[1..], x);
      assert xs[..j + 1] == [xs[0]] + xs[1..][..j];
      j + 1
  }

  /** The occurrence `flags.remove(x)` drops is the first one: the result is
      the list on either side of it, joined. */
  lemma {:induction false} RemoveFirstSplits(xs: seq<string>, x: string)
    requires x in xs
    ensures var k := FirstIndex(xs, x); RemoveFirst(xs, x) == xs[..k] + xs[k + 1..]
  {
    if xs[0] == x {
      assert FirstIndex(xs, x) == 0;
      assert xs[..0] + xs[0 + 1..] == xs[1..];
    } else {
      var tail := xs[1..];
      assert x in tail by {
        var i :| 0 <= i < |xs| && xs[i] == x;
        assert tail[i - 1] == x;
      }
      RemoveFirstSplits(tail, x);
      var j := FirstIndex(tail, x);
      var rest := RemoveFirst(tail, x);
      assert rest == tail[..j] + tail[j + 1..];
      assert RemoveFirst(xs, x) == [xs[0]] + rest;
      assert FirstIndex(xs, x) == j + 1;
      ConsSplit(xs, j);
    }
  }

  /** Splitting a list around position `j + 1` splits its tail around `j`. */
  lemma ConsSplit<T>(xs: seq<T>, j: nat)
    requires j + 1 < |xs|
    ensures xs[..j + 1] + xs[j + 1 + 1..] == [xs[0]] + (xs[1..][..j] + xs[1..][j + 1..])
  {
    assert xs[..j + 1] == [xs[0]] + xs[1..][..j];
    assert xs[j + 1 + 1..] == xs[1..][j + 1..];
  }

  /** The entry loop on one entry: the entry afterwards, and whether it was
      counted as updated. */
  function BackfillEntry(e: Entry, translations: map<string, string>): (r: (Entry, bool))
    ensures r.0.msgid == e.msgid && r.0.obsolete == e.obsolete
    ensures r.1 <==> r.0 != e
    ensures (e.obsolete || NormalizeMsgid(e.msgid) !in translations) ==> r.0 == e
    ensures !e.obsolete && NormalizeMsgid(e.msgid) in translations ==>
      && r.0.msgstr == translations[NormalizeMsgid(e.msgid)]
      && r.0.flags == if IsFuzzy(e) then RemoveFirst(e.flags, FUZZY) else e.flags
  {
    var key := NormalizeMsgid(e.msgid);
    if e.obsolete || key !in translations then (e, false)
    else
      var msgstr := translations[key];
      var flags := if IsFuzzy(e) then RemoveFirst(e.flags, FUZZY) else e.flags;
      if e.msgstr != msgstr then (e.(msgstr := msgstr, flags := flags), true)
      else if IsFuzzy(e) then (e.(flags := flags), true)
      else (e, false)
  }

  /** Every entry after the entry loop. */
  function Backfilled(es: seq<Entry>, translations: map<string, string>): (r: seq<Entry>)
    ensures |r| == |es|
  {
    seq(|es|, i requires 0 <= i < |es| => BackfillEntry(es[i], translations).0)
  }

  /** `updated_count` after the entry loop. */
  function UpdateCount(es: seq<Entry>, translations: map<string, string>): nat
    decreases |es|
  {
    if es == [] then 0
    else UpdateCount(es[..|es| - 1], translations) + (if BackfillEntry(es[|es| - 1], translations).1 then 1 else 0)
  }

  /** The number of positions at which two equally long lists differ. */
  function DiffCount(a: seq<Entry>, b: seq<Entry>): nat
    requires |a| == |b|
    decreases |a|
  {
    if a == [] then 0
    else DiffCount(a[..|a| - 1], b[..|b| - 1]) + (if a[|a| - 1] != b[|b| - 1] then 1 else 0)
  }

  /** `updated_count` is the number of entries the loop modified. */
  lemma {:induction false} UpdateCountIsModifiedCount(es: seq<Entry>, translations: map<string, string>)
    ensures UpdateCount(es, translations) == DiffCount(es, Backfilled(es, translations))
    decreases |es|
  {
    if es != [] {
      var n := |es| - 1;
      assert Backfilled(es, translations)[..n] == Backfilled(es[..n], translations);
      UpdateCountIsModifiedCount(es[..n], translations);
    }
  }

  /** With at most one `fuzzy` flag, a backfilled entry is left alone by the
      same translations. */
  lemma BackfillEntryStable(e: Entry, translations: map<string, string>)
    requires multiset(e.flags)[FUZZY] <= 1
    ensures !BackfillEntry(BackfillEntry(e, translations).0, translations).1
  {
    var e' := BackfillEntry(e, translations).0;
    if !e.obsolete && NormalizeMsgid(e.msgid) in translations && IsFuzzy(e) {
      assert multiset(e'.flags)[FUZZY] == 0;
    }
  }

  lemma {:induction false} UpdateCountZero(es: seq<Entry>, translations: map<string, string>)
    requires forall i :: 0 <= i < |es| ==> !BackfillEntry(es[i], translations).1
    ensures UpdateCount(es, translations) == 0
    decreases |es|
  {
    if es != [] {
      UpdateCountZero(es[..|es| - 1], translations);
    }
  }

  /** Rerunning the same translations on the result updates nothing, as long
      as no entry carries `fuzzy` twice. */
  lemma RerunUpdatesNothing(es: seq<Entry>, translations: map<string, string>)
    requires forall e :: e in es ==> multiset(e.flags)[FUZZY] <= 1
    ensures UpdateCount(Backfilled(es, translations), translations) == 0
  {
    var es' := Backfilled(es, translations);
    forall i | 0 <= i < |es'| ensures !BackfillEntry(es'[i], translations).1 {
      assert es[i] in es;
      BackfillEntryStable(es[i], translations);
    }
    UpdateCountZero(es', translations);
  }

  /** An entry flagged `fuzzy` twice keeps one flag, so a rerun counts it again. */
  lemma DoubledFuzzyCountedAgain()
    ensures var e := Entry("a", "x", false, [FUZZY, FUZZY]);
            var translations := map["a" := "x"];
            BackfillEntry(e, translations).1 && BackfillEntry(BackfillEntry(e, translations).0, translations).1
  {
    var e := Entry("a", "x", false, [FUZZY, FUZZY]);
    var translations := map["a" := "x"];
    assert NormalizeMsgid("a") == "a";
    assert RemoveFirst(e.flags, FUZZY) == [FUZZY];
  }

  /** The entry loop of `backfill_translated`, updating the entries in place. */
  method UpdateEntries(po: PoFile, translations: map<string, string>) returns (updated: nat)
    modifies po
    ensures po.entries == Backfilled(old(po.entries), translations)
    ensures updated == UpdateCount(old(po.entries), translations)
    ensures updated == DiffCount(old(po.entries), po.entries)
    ensures po.header == old(po.header) && po.metadata == old(po.metadata)
  {
    ghost var original := po.entries;
    updated := 0;
    var i := 0;
    while i < |po.entries|
      invariant 0 <= i <= |po.entries| == |original|
      invariant forall k :: 0 <= k < i ==> po.entries[k] == BackfillEntry(original[k], translations).0
      invariant forall k :: i <= k < |po.entries| ==> po.entries[k] == original[k]
      invariant updated == UpdateCount(original[..i], translations)
      invariant po.header == old(po.header) && po.metadata == old(po.metadata)
    {
      var entry := po.entries[i];
      assert original[..i + 1][..i] == original[..i];
      ghost var step := BackfillEntry(original[i], translations);
      ghost var before := updated;
      var normalized := NormalizeMsgid(entry.msgid);
      if !entry.obsolete {
        if normalized in translations {
          var newMsgstr := translations[normalized];
          if entry.msgstr != newMsgstr {
            entry := entry.(msgstr := newMsgstr);
            if IsFuzzy(entry) {
              entry := entry.(flags := RemoveFirst(entry.flags, FUZZY));
            }
            updated := updated + 1;
          } else if IsFuzzy(entry) {
            entry := entry.(flags := RemoveFirst(entry.flags, FUZZY));
            updated := updated + 1;
          }
        }
      }
      assert entry == step.0;
      assert updated == before + if step.1 then 1 else 0;
      po.entries := po.entries[i := entry];
      i := i + 1;
    }
    assert original[..i] == original;
    assert po.entries == Backfilled(original, translations);
    UpdateCountIsModifiedCount(original, translations);
  }

  /** `backfill_translated` on a loaded catalogue and the text of the `.tmp`
      file: the entries are updated in place, and the file is saved exactly
      when at least one entry was updated. */
  method BackfillTranslated(po: PoFile, tmpText: string) returns (updated: nat, saved: bool)
    modifies po
    ensures var translations := Translations(Lines(UniversalNewlines(tmpText)));
      && po.entries == Backfilled(old(po.entries), translations)
      && updated == UpdateCount(old(po.entries), translations)
    ensures updated == DiffCount(old(po.entries), po.entries)
    ensures saved <==> updated > 0
    ensures po.header == old(po.header) && po.metadata == old(po.metadata)
  {
    var translations := ReadTranslations(Lines(UniversalNewlines(tmpText)));
    updated := UpdateEntries(po, translations);
    saved := updated > 0;
  }
}

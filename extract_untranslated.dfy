/** `extract_untranslated`: list the msgids that still need a translation,
    sorted and without repeats, one `msgid|||` line each. */
module ExtractUntranslated {
  import opened Seqs
  import opened PyStr
  import opened PoCatalogue

  /** The selection test: a live entry whose msgstr is empty, is a copy of
      its msgid, or is marked fuzzy. */
  predicate IsUntranslated(e: Entry)
  {
    !e.obsolete && (e.msgstr == "" || e.msgstr == e.msgid || IsFuzzy(e))
  }

  /** The msgids the selection loop appends, in entry order. */
  function UntranslatedIds(es: seq<Entry>): (ids: seq<string>)
    ensures |ids| <= |es|
    decreases |es|
  {
    if es == [] then []
    else
      var e := es[|es| - 1];
      UntranslatedIds(es[..|es| - 1]) + (if IsUntranslated(e) then [e.msgid] else [])
  }

  /** The selection loop of `extract_untranslated`. */
  method CollectUntranslated(es: seq<Entry>) returns (ids: seq<string>)
    ensures ids == UntranslatedIds(es)
  {
    ids := [];
    var i := 0;
    while i < |es|
      invariant 0 <= i <= |es|
      invariant ids == UntranslatedIds(es[..i])
    {
      var entry := es[i];
      assert es[..i + 1][..i] == es[..i];
      if !entry.obsolete && (entry.msgstr == "" || entry.msgstr == entry.msgid || IsFuzzy(entry)) {
        ids := ids + [entry.msgid];
      }
      i := i + 1;
    }
    assert es[..i] == es;
  }

  /** A msgid is collected iff some entry with that msgid is selected. */
  lemma {:induction false} UntranslatedIdsMembership(es: seq<Entry>, x: string)
    ensures x in UntranslatedIds(es) <==> exists i :: 0 <= i < |es| && IsUntranslated(es[i]) && es[i].msgid == x
    decreases |es|
  {
    if es != [] {
      var n := |es| - 1;
      var prefix, last := es[..n], es[n];
      UntranslatedIdsMembership(prefix, x);
      assert forall i :: 0 <= i < n ==> prefix[i] == es[i];
      var tail := if IsUntranslated(last) then [last.msgid] else [];
      assert UntranslatedIds(es) == UntranslatedIds(prefix) + tail;
      assert x in UntranslatedIds(es) <==> x in UntranslatedIds(prefix) || x in tail;
    }
  }

  /** Strictly ascending in Python's string order. */
  predicate StrictlyAscending(s: seq<string>)
  {
    forall i, j :: 0 <= i < j < |s| ==> Less(s[i], s[j])
  }

  /** Putting a string below every element in front keeps a list ascending. */
  lemma ConsAscending(h: string, t: seq<string>)
    requires StrictlyAscending(t)
    requires forall y :: y in t ==> Less(h, y)
    ensures StrictlyAscending([h] + t)
  {
    var r := [h] + t;
    forall i, j | 0 <= i < j < |r| ensures Less(r[i], r[j]) {
      if i == 0 {
        assert r[j] == t[j - 1];
      } else {
        assert r[i] == t[i - 1] && r[j] == t[j - 1];
      }
    }
  }

  lemma ElemsCons(h: string, t: seq<string>)
    ensures Elems([h] + t) == {h} + Elems(t)
  {
    assert forall y :: y in [h] + t <==> y == h || y in t;
  }

  /** Inserts `x` into an ascending list unless it is already there. */
  function Insert(x: string, s: seq<string>): (r: seq<string>)
    requires StrictlyAscending(s)
    ensures StrictlyAscending(r)
    ensures Elems(r) == Elems(s) + {x}
  {
    if s == [] then [x]
    else if x == s[0] then
      assert s[0] in s;
      s
    else if Less(x, s[0]) then
      forall y | y in s ensures Less(x, y) {
        var j :| 0 <= j < |s| && s[j] == y;
        if j > 0 {
          LessTransitive(x, s[0], s[j]);
        }
      }
      ConsAscending(x, s);
      ElemsCons(x, s);
      [x] + s
    else
      LessTotal(x, s[0]);
      assert s == [s[0]] + s[1..];
      ElemsCons(s[0], s[1..]);
      var tail := Insert(x, s[1..]);
      forall y | y in tail ensures Less(s[0], y) {
        assert y in Elems(tail);
        if y != x {
          var j :| 0 <= j < |s[1..]| && s[1..][j] == y;
          assert s[j + 1] == y;
        }
      }
      ConsAscending(s[0], tail);
      ElemsCons(s[0], tail);
      [s[0]] + tail
  }

  /** `sorted(list(set(xs)))`. */
  function SortedUnique(xs: seq<string>): (r: seq<string>)
    ensures StrictlyAscending(r)
    ensures Elems(r) == Elems(xs)
    decreases |xs|
  {
    if xs == [] then []
    else
      assert Elems(xs) == Elems(xs[..|xs| - 1]) + {xs[|xs| - 1]} by {
        assert xs == xs[..|xs| - 1] + [xs[|xs| - 1]];
      }
      Insert(xs[|xs| - 1], SortedUnique(xs[..|xs| - 1]))
  }

  /** An ascending list has no repeats. */
  lemma AscendingDistinct(s: seq<string>)
    requires StrictlyAscending(s)
    ensures forall i, j :: 0 <= i < j < |s| ==> s[i] != s[j]
  {
    forall i, j | 0 <= i < j < |s| ensures s[i] != s[j] {
      LessAsymmetric(s[i], s[j]);
    }
  }

  /** There is only one ascending list of a given set of strings, so
      `SortedUnique` is exactly Python's `sorted(set(xs))`. */
  lemma {:induction false} AscendingUnique(a: seq<string>, b: seq<string>)
    requires StrictlyAscending(a) && StrictlyAscending(b)
    requires Elems(a) == Elems(b)
    ensures a == b
    decreases |a|
  {
    ElemsEmpty(a);
    ElemsEmpty(b);
    if a != [] {
      assert a[0] in Elems(b);
      assert b != [];
      assert b[0] in Elems(a);
      // each head is the least element of the common set
      var i :| 0 <= i < |b| && b[i] == a[0];
      var j :| 0 <= j < |a| && a[j] == b[0];
      if a[0] != b[0] {
        assert i > 0 && j > 0;
        assert Less(b[0], a[0]) && Less(a[0], b[0]);
        LessAsymmetric(a[0], b[0]);
      }
      assert a[0] == b[0];
      AscendingDistinct(a);
      AscendingDistinct(b);
      assert Elems(a[1..]) == Elems(b[1..]) by {
        assert a == [a[0]] + a[1..] && b == [b[0]] + b[1..];
        forall y | y in a[1..] ensures y in b[1..] {
          var k :| 0 <= k < |a[1..]| && a[1..][k] == y;
          assert a[k + 1] == y && y != a[0];
          assert y in Elems(a);
          var m :| 0 <= m < |b| && b[m] == y;
          assert m > 0 && b[1..][m - 1] == y;
        }
        forall y | y in b[1..] ensures y in a[1..] {
          var k :| 0 <= k < |b[1..]| && b[1..][k] == y;
          assert b[k + 1] == y && y != b[0];
          assert y in Elems(b);
          var m :| 0 <= m < |a| && a[m] == y;
          assert m > 0 && a[1..][m - 1] == y;
        }
      }
      AscendingUnique(a[1..], b[1..]);
      assert a == [a[0]] + a[1..] && b == [b[0]] + b[1..];
    }
  }

  /** The line written for one msgid: `f"{entry}|||\n"`. */
  function TmpLine(msgid: string): string
  {
    msgid + TMP_SEPARATOR + "\n"
  }

  /** The text of the output file for a list of msgids. */
  function Serialize(ids: seq<string>): string
    decreases |ids|
  {
    if ids == [] then "" else Serialize(ids[..|ids| - 1]) + TmpLine(ids[|ids| - 1])
  }

  /** The writing loop of `extract_untranslated`. */
  method WriteTmp(ids: seq<string>) returns (text: string)
    ensures text == Serialize(ids)
  {
    text := "";
    var i := 0;
    while i < |ids|
      invariant 0 <= i <= |ids|
      invariant text == Serialize(ids[..i])
    {
      assert ids[..i + 1][..i] == ids[..i];
      text := text + TmpLine(ids[i]);
      i := i + 1;
    }
    assert ids[..i] == ids;
  }

  lemma {:induction false} SerializeCons(x: string, ids: seq<string>)
    ensures Serialize([x] + ids) == TmpLine(x) + Serialize(ids)
    decreases |ids|
  {
    if ids == [] {
      assert ([x] + ids)[..0] == [];
    } else {
      var n := |ids| - 1;
      var whole := [x] + ids;
      assert whole[..n + 1] == [x] + ids[..n];
      assert whole[n + 1] == ids[n];
      assert Serialize(whole) == Serialize([x] + ids[..n]) + TmpLine(ids[n]);
      SerializeCons(x, ids[..n]);
      assert Serialize(ids) == Serialize(ids[..n]) + TmpLine(ids[n]);
      assert (TmpLine(x) + Serialize(ids[..n])) + TmpLine(ids[n]) == TmpLine(x) + (Serialize(ids[..n]) + TmpLine(ids[n]));
    }
  }

  /** Read back line by line, the file holds exactly one line per msgid, and
      that line is the msgid followed by `|||` and a newline. */
  lemma {:induction false} SerializedLines(ids: seq<string>)
    requires forall id :: id in ids ==> '\n' !in id
    ensures |Lines(Serialize(ids))| == |ids|
    ensures forall k :: 0 <= k < |ids| ==> Lines(Serialize(ids))[k] == TmpLine(ids[k])
    decreases |ids|
  {
    if ids != [] {
      var head, tail := ids[0], ids[1..];
      assert [head] + tail == ids;
      SerializeCons(head, tail);
      assert '\n' !in head;
      assert '\n' !in head + TMP_SEPARATOR;
      LinesCons(head + TMP_SEPARATOR, Serialize(tail));
      assert head + TMP_SEPARATOR + "\n" == TmpLine(head);
      assert forall id :: id in tail ==> id in ids;
      SerializedLines(tail);
      var rest := Lines(Serialize(tail));
      assert Lines(Serialize(ids)) == [TmpLine(head)] + rest;
      forall k | 0 < k < |ids| ensures Lines(Serialize(ids))[k] == TmpLine(ids[k]) {
        assert ids[k] == tail[k - 1];
      }
    }
  }

  /** `extract_untranslated` on a loaded catalogue: the msgids written and the
      text of the output file. */
  method ExtractUntranslated(es: seq<Entry>) returns (written: seq<string>, text: string)
    ensures StrictlyAscending(written)
    ensures forall x :: x in written <==> exists i :: 0 <= i < |es| && IsUntranslated(es[i]) && es[i].msgid == x
    ensures text == Serialize(written)
  {
    var ids := CollectUntranslated(es);
    written := SortedUnique(ids);
    forall x ensures x in written <==> exists i :: 0 <= i < |es| && IsUntranslated(es[i]) && es[i].msgid == x {
      assert x in written <==> x in Elems(ids);
      UntranslatedIdsMembership(es, x);
    }
    text := WriteTmp(written);
  }
}

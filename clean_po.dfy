/** `clean_po_file`: keep the first entry of every msgid, and of those only
    the ones that are neither obsolete nor fuzzy. */
module CleanPo {
  import opened Seqs
  import opened PoCatalogue

  /** The entry survives the obsolete and fuzzy filters. */
  predicate Keep(e: Entry)
  {
    !e.obsolete && !IsFuzzy(e)
  }

  /** No earlier entry has the msgid of `es[i]`. */
  predicate FirstOccurrence(es: seq<Entry>, i: int)
    requires 0 <= i < |es|
  {
    forall j :: 0 <= j < i ==> es[j].msgid != es[i].msgid
  }

  /** The entry list `clean_po_file` writes: the entries of `es` in order, an
      entry kept when its msgid has not been seen before and it passes `Keep`;
      every first occurrence marks its msgid seen, kept or not. */
  function Cleaned(es: seq<Entry>): (r: seq<Entry>)
    ensures |r| <= |es|
    decreases |es|
  {
    if es == [] then []
    else
      var prefix, e := es[..|es| - 1], es[|es| - 1];
      Cleaned(prefix) + (if e.msgid !in MsgIds(prefix) && Keep(e) then [e] else [])
  }

  /** The loop of `clean_po_file`, with its `seen_msgids` set. */
  method DedupAndClean(es: seq<Entry>) returns (kept: seq<Entry>)
    ensures kept == Cleaned(es)
  {
    var seen: set<string> := {};
    kept := [];
    var i := 0;
    while i < |es|
      invariant 0 <= i <= |es|
      invariant seen == MsgIds(es[..i])
      invariant kept == Cleaned(es[..i])
    {
      var entry := es[i];
      ghost var done := es[..i];
      assert es[..i + 1] == done + [entry];
      MsgIdsSnoc(done, entry);
      CleanedSnoc(done, entry);
      if entry.msgid !in seen {
        seen := seen + {entry.msgid};
        if !entry.obsolete {
          if !IsFuzzy(entry) {
            kept := kept + [entry];
          }
        }
      }
      i := i + 1;
    }
    assert es[..i] == es;
  }

  /** `clean_po_file` on a loaded file: a fresh catalogue that carries the
      metadata over, holds the cleaned entries and has an empty header comment. */
  method CleanPoFile(po: PoFile) returns (cleaned: PoFile)
    ensures fresh(cleaned)
    ensures cleaned.metadata == po.metadata
    ensures cleaned.entries == Cleaned(po.entries)
    ensures cleaned.header == ""
  {
    var kept := DedupAndClean(po.entries);
    cleaned := new PoFile();
    cleaned.metadata := po.metadata;
    cleaned.Extend(kept);
  }

  /** One more input entry adds at most that entry to the output. */
  lemma CleanedSnoc(es: seq<Entry>, e: Entry)
    ensures Cleaned(es + [e]) == Cleaned(es) + (if e.msgid !in MsgIds(es) && Keep(e) then [e] else [])
  {
    assert (es + [e])[..|es|] == es;
  }

  lemma MsgIdsSnoc(es: seq<Entry>, e: Entry)
    ensures MsgIds(es + [e]) == MsgIds(es) + {e.msgid}
  {
    assert (es + [e])[..|es|] == es;
  }

  /** Every msgid of the output occurs in the input. */
  lemma {:induction false} CleanedMsgIds(es: seq<Entry>)
    ensures MsgIds(Cleaned(es)) <= MsgIds(es)
    decreases |es|
  {
    if es != [] {
      var prefix, e := es[..|es| - 1], es[|es| - 1];
      assert es == prefix + [e];
      CleanedMsgIds(prefix);
      MsgIdsSnoc(prefix, e);
      CleanedSnoc(prefix, e);
      assert MsgIds(es) == MsgIds(prefix) + {e.msgid};
      if e.msgid !in MsgIds(prefix) && Keep(e) {
        MsgIdsSnoc(Cleaned(prefix), e);
      } else {
        assert Cleaned(es) == Cleaned(prefix);
      }
    }
  }

  /** The msgids written are pairwise distinct. */
  lemma {:induction false} CleanedDistinct(es: seq<Entry>)
    ensures forall i, j :: 0 <= i < j < |Cleaned(es)| ==> Cleaned(es)[i].msgid != Cleaned(es)[j].msgid
    decreases |es|
  {
    if es != [] {
      var prefix, e := es[..|es| - 1], es[|es| - 1];
      CleanedDistinct(prefix);
      CleanedMsgIds(prefix);
      var p := Cleaned(prefix);
      if e.msgid !in MsgIds(prefix) && Keep(e) {
        forall i, j | 0 <= i < j < |p| + 1 ensures (p + [e])[i].msgid != (p + [e])[j].msgid {
          if j == |p| {
            MsgIdsMembership(p, p[i].msgid);
          }
        }
      }
    }
  }

  /** No entry written is obsolete and none is fuzzy. */
  lemma {:induction false} CleanedKeepsOnlyLive(es: seq<Entry>)
    ensures forall e :: e in Cleaned(es) ==> !e.obsolete && !IsFuzzy(e)
    decreases |es|
  {
    if es != [] {
      CleanedKeepsOnlyLive(es[..|es| - 1]);
    }
  }

  /** The output is the input with entries deleted, in the original order. */
  lemma {:induction false} CleanedIsSubsequence(es: seq<Entry>)
    ensures IsSubsequence(Cleaned(es), es)
    decreases |es|
  {
    if es != [] {
      var prefix, e := es[..|es| - 1], es[|es| - 1];
      assert es == prefix + [e];
      CleanedSnoc(prefix, e);
      CleanedIsSubsequence(prefix);
      if e.msgid !in MsgIds(prefix) && Keep(e) {
        SubsequenceSnoc(Cleaned(prefix), prefix, e);
      } else {
        assert Cleaned(es) == Cleaned(prefix);
        SubsequenceExtend(Cleaned(prefix), prefix, e);
      }
    }
  }

  lemma FirstOccurrenceInPrefix(es: seq<Entry>, i: int)
    requires 0 <= i < |es| - 1
    ensures FirstOccurrence(es, i) <==> FirstOccurrence(es[..|es| - 1], i)
  {
  }

  lemma FirstOccurrenceLast(es: seq<Entry>)
    requires es != []
    ensures FirstOccurrence(es, |es| - 1) <==> es[|es| - 1].msgid !in MsgIds(es[..|es| - 1])
  {
    var prefix := es[..|es| - 1];
    MsgIdsMembership(prefix, es[|es| - 1].msgid);
    if es[|es| - 1].msgid in MsgIds(prefix) {
      var j :| 0 <= j < |prefix| && prefix[j].msgid == es[|es| - 1].msgid;
      assert es[j].msgid == es[|es| - 1].msgid;
    }
  }

  /** An entry is written iff it is the first occurrence of its msgid and is
      neither obsolete nor fuzzy. */
  lemma {:induction false} CleanedMembership(es: seq<Entry>, e: Entry)
    ensures e in Cleaned(es) <==> exists i :: 0 <= i < |es| && es[i] == e && FirstOccurrence(es, i) && Keep(e)
    decreases |es|
  {
    if es != [] {
      var n := |es| - 1;
      var prefix, last := es[..n], es[n];
      CleanedMembership(prefix, e);
      FirstOccurrenceLast(es);
      if e in Cleaned(es) {
        if e in Cleaned(prefix) {
          var i :| 0 <= i < |prefix| && prefix[i] == e && FirstOccurrence(prefix, i) && Keep(e);
          FirstOccurrenceInPrefix(es, i);
        } else {
          assert e == last && FirstOccurrence(es, n) && Keep(e);
        }
      } else {
        forall i | 0 <= i < |es| && es[i] == e && FirstOccurrence(es, i) ensures !Keep(e) {
          if i < n {
            FirstOccurrenceInPrefix(es, i);
          }
        }
      }
    }
  }

  /** When the first entry with some msgid is dropped, every later entry with
      that msgid is dropped as well. */
  lemma CleanedDropsShadowed(es: seq<Entry>, i: int)
    requires 0 <= i < |es| && FirstOccurrence(es, i) && !Keep(es[i])
    ensures forall e :: e in Cleaned(es) ==> e.msgid != es[i].msgid
  {
    forall e | e in Cleaned(es) ensures e.msgid != es[i].msgid {
      CleanedMembership(es, e);
      var k :| 0 <= k < |es| && es[k] == e && FirstOccurrence(es, k) && Keep(e);
      assert k != i;
    }
  }

  /** A list with distinct msgids and only live entries is left as it is. */
  lemma {:induction false} CleanedFixpoint(es: seq<Entry>)
    requires forall i, j :: 0 <= i < j < |es| ==> es[i].msgid != es[j].msgid
    requires forall e :: e in es ==> Keep(e)
    ensures Cleaned(es) == es
    decreases |es|
  {
    if es != [] {
      var n := |es| - 1;
      var prefix, last := es[..n], es[n];
      assert forall k :: 0 <= k < n ==> prefix[k] == es[k];
      CleanedFixpoint(prefix);
      assert FirstOccurrence(es, n);
      FirstOccurrenceLast(es);
      assert Keep(last) by { assert last in es; }
      assert Cleaned(es) == Cleaned(prefix) + [last];
      assert es == prefix + [last];
    }
  }

  /** Cleaning an already cleaned list changes nothing. */
  lemma CleanIdempotent(es: seq<Entry>)
    ensures Cleaned(Cleaned(es)) == Cleaned(es)
  {
    CleanedDistinct(es);
    CleanedKeepsOnlyLive(es);
    CleanedFixpoint(Cleaned(es));
  }
}

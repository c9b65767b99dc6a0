/** The PO catalogue as the three maintenance tools see it through polib. */
module PoCatalogue {

  /** The flag that marks a translation as needing review. */
  const FUZZY := "fuzzy"

  /** The separator between msgid and msgstr on a line of the `.tmp` exchange file. */
  const TMP_SEPARATOR := "|||"

  /** One catalogue entry: its source text, its translation, whether it is
      kept only as an obsolete ("#~") entry, and its flags ("#, ..."). */
  datatype Entry = Entry(msgid: string, msgstr: string, obsolete: bool, flags: seq<string>)

  /** polib's `entry.fuzzy`. */
  predicate IsFuzzy(e: Entry)
  {
    FUZZY in e.flags
  }

  /** The set of msgids of a list of entries. */
  function MsgIds(es: seq<Entry>): set<string>
    decreases |es|
  {
    if es == [] then {} else MsgIds(es[..|es| - 1]) + {es[|es| - 1].msgid}
  }

  /** A msgid is in the set exactly when some entry carries it. */
  lemma {:induction false} MsgIdsMembership(es: seq<Entry>, m: string)
    ensures m in MsgIds(es) <==> exists j :: 0 <= j < |es| && es[j].msgid == m
    decreases |es|
  {
    if es != [] {
      var n := |es| - 1;
      MsgIdsMembership(es[..n], m);
      if m in MsgIds(es[..n]) {
        var j :| 0 <= j < n && es[..n][j].msgid == m;
        assert es[j].msgid == m;
      }
    }
  }

  /** A loaded PO file: the comment block at its top, the header entry's
      metadata, and the list of entries (obsolete ones included). */
  class PoFile {
    var header: string
    var metadata: map<string, string>
    var entries: seq<Entry>

    /** `polib.POFile()`: an empty catalogue. */
    constructor ()
      ensures header == "" && metadata == map[] && entries == []
    {
      header := "";
      metadata := map[];
      entries := [];
    }

    /** `list.extend`: appends the given entries in order. */
    method Extend(es: seq<Entry>)
      modifies this
      ensures entries == old(entries) + es
      ensures header == old(header) && metadata == old(metadata)
    {
      entries := entries + es;
    }
  }
}

/** The posted-links ledger (utils.py:14-42, 146-184): the file `posted_links.txt` holds one
    posted link per line; it is trimmed by count, loaded as a set and appended to. */
module Ledger {
  import opened Text
  import opened Seqs

  /** `max_links` in `cleanup_old_links`. */
  const MaxLinks: nat := 1000

  /** `filter_new_links`: the links not yet posted, in order and with their repeats. */
  function FilterNewLinks(links: seq<string>, posted: set<string>): (r: seq<string>)
    ensures Subseq(r, links)
    ensures forall x :: x in r <==> x in links && x !in posted
    ensures forall x :: x !in posted ==> multiset(r)[x] == multiset(links)[x]
  {
    if links == [] then []
    else
      var rest := FilterNewLinks(links[1..], posted);
      assert links == [links[0]] + links[1..];
      if links[0] in posted then
        SubseqSkip(rest, links[0], links[1..]);
        rest
      else
        SubseqKeep(rest, links[0], links[1..]);
        [links[0]] + rest
  }

  /** What the trim keeps and how many lines it reports removed. */
  datatype Trim = Trim(kept: seq<string>, removed: nat)

  /** The count-based rule of `cleanup_old_links`: the last `MaxLinks` lines survive. The
      age in days is accepted and has no effect. */
  function TrimLines(lines: seq<string>, daysToKeep: int): (t: Trim)
    ensures |t.kept| == if |lines| > MaxLinks then MaxLinks else |lines|
    ensures t.removed + |t.kept| == |lines|
    ensures lines == lines[..t.removed] + t.kept
  {
    if |lines| > MaxLinks then Trim(lines[|lines| - MaxLinks..], |lines| - MaxLinks)
    else Trim(lines, 0)
  }

  /** Trimming twice removes nothing the second time. */
  lemma TrimIdempotent(lines: seq<string>, d: int, e: int)
    ensures TrimLines(TrimLines(lines, d).kept, e) == Trim(TrimLines(lines, d).kept, 0)
  {
  }

  /** The set `load_posted_links` reads: every line stripped, blank lines skipped. */
  function LoadedLinks(lines: seq<string>): set<string> {
    set l | l in lines && Strip(l) != [] :: Strip(l)
  }

  /** A link saved as a line is found again by the next load, and nothing else is added. */
  lemma {:induction false} LoadAfterSave(lines: seq<string>, link: string)
    ensures LoadedLinks(lines + [link]) == LoadedLinks(lines) + (if Strip(link) != [] then {Strip(link)} else {})
  {
    var a := LoadedLinks(lines + [link]);
    var b := LoadedLinks(lines) + (if Strip(link) != [] then {Strip(link)} else {});
    forall x | x in a ensures x in b {
      var l :| l in lines + [link] && Strip(l) != [] && Strip(l) == x;
      if l != link {
        assert l in lines;
      }
    }
    forall x | x in b ensures x in a {
      if x in LoadedLinks(lines) {
        var l :| l in lines && Strip(l) != [] && Strip(l) == x;
        assert l in lines + [link];
      } else {
        assert link in lines + [link];
      }
    }
  }

  /** A line the trim keeps still counts as posted. */
  lemma TrimmedLoaded(lines: seq<string>, d: int, i: nat)
    requires i < |lines| && Strip(lines[i]) != []
    ensures i >= TrimLines(lines, d).removed ==> Strip(lines[i]) in LoadedLinks(TrimLines(lines, d).kept)
  {
    var t := TrimLines(lines, d);
    if i >= t.removed {
      assert lines[i] == t.kept[i - t.removed];
    }
  }

  /** The file `posted_links.txt`; a missing file is the empty one. */
  class LinkLedger {
    var lines: seq<string>

    constructor (lines0: seq<string>)
      ensures lines == lines0
    {
      lines := lines0;
    }

    /** The links the file holds (`load_posted_links`). */
    function Posted(): set<string>
      reads this
    {
      LoadedLinks(lines)
    }

    /** `cleanup_old_links`: rewrites the file with what the trim keeps. */
    method Cleanup(daysToKeep: int) returns (removed: nat)
      modifies this
      ensures lines == TrimLines(old(lines), daysToKeep).kept
      ensures removed == TrimLines(old(lines), daysToKeep).removed
      ensures |lines| <= MaxLinks && removed + |lines| == |old(lines)|
    {
      var t := TrimLines(lines, daysToKeep);
      lines := t.kept;
      removed := t.removed;
    }

    /** `save_posted_link`: one more line at the end. */
    method Save(link: string)
      modifies this
      ensures lines == old(lines) + [link]
      ensures Posted() == old(Posted()) + (if Strip(link) != [] then {Strip(link)} else {})
    {
      LoadAfterSave(lines, link);
      lines := lines + [link];
    }
  }
}

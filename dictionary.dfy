/**
 * The in-memory dictionary: an ordered list of entries, searched front to
 * back with a case-insensitive comparison and grown only at the end.
 */
module Dictionary {
  import opened Wrappers
  import opened Words

  datatype Entry = Entry(word: string, definition: string)

  /** The `find` callback: the entry's word equals the probe, case ignored. */
  predicate Matches(e: Entry, w: string)
  {
    SameWord(e.word, w)
  }

  /** Some entry of `d` matches `w`. */
  predicate Contains(d: seq<Entry>, w: string)
  {
    exists i :: 0 <= i < |d| && Matches(d[i], w)
  }

  /**
   * The index `Array.prototype.find` stops at: the first entry that matches,
   * or nothing when no entry does.
   */
  function FirstMatch(d: seq<Entry>, w: string): (r: Option<nat>)
    ensures r.Some? ==> r.value < |d| && Matches(d[r.value], w)
    ensures r.Some? ==> forall j :: 0 <= j < r.value ==> !Matches(d[j], w)
    ensures r.None? <==> !Contains(d, w)
    decreases |d|
  {
    if d == [] then None
    else if Matches(d[0], w) then Some(0)
    else match FirstMatch(d[1..], w)
      case None => None
      case Some(k) => Some(k + 1)
  }

  /** The store invariant: every word is letters only, and no two words are the same word. */
  predicate WellFormed(d: seq<Entry>)
  {
    && (forall i :: 0 <= i < |d| ==> IsAlphaWord(d[i].word))
    && (forall i, j :: 0 <= i < j < |d| ==> !SameWord(d[i].word, d[j].word))
  }

  /** The linear scan shared by GET and POST, front to back as `find` does it. */
  method Find(d: seq<Entry>, w: string) returns (r: Option<nat>)
    ensures r == FirstMatch(d, w)
  {
    var lw := Lower(w);
    var i := 0;
    while i < |d|
      invariant 0 <= i <= |d|
      invariant forall j :: 0 <= j < i ==> !Matches(d[j], w)
    {
      if Lower(d[i].word) == lw {
        return Some(i);
      }
      i := i + 1;
    }
    return None;
  }

  /** In a well-formed store at most one entry matches, so the first match is the only one. */
  lemma OnlyMatch(d: seq<Entry>, w: string, j: nat)
    requires WellFormed(d)
    requires j < |d| && Matches(d[j], w)
    ensures FirstMatch(d, w) == Some(j)
  {
  }

  /** Appending an entry whose word is valid and new keeps the store well formed. */
  lemma AppendNewPreservesWellFormed(d: seq<Entry>, e: Entry)
    requires WellFormed(d)
    requires IsAlphaWord(e.word) && !Contains(d, e.word)
    ensures WellFormed(d + [e])
  {
    var d' := d + [e];
    forall i, j | 0 <= i < j < |d'|
      ensures !SameWord(d'[i].word, d'[j].word)
    {
      if j == |d| {
        assert d'[i] == d[i] && !Matches(d[i], e.word);
      }
    }
  }

  /**
   * Searching the store with one more entry at the end finds what the old
   * store found, and only when the old store had no match can it stop at the
   * new entry.
   */
  lemma {:induction false} FirstMatchAfterAppend(d: seq<Entry>, e: Entry, w: string)
    ensures FirstMatch(d + [e], w) ==
              match FirstMatch(d, w)
              case Some(k) => Some(k)
              case None => if Matches(e, w) then Some(|d|) else None
    decreases |d|
  {
    if d != [] {
      assert (d + [e])[0] == d[0];
      assert (d + [e])[1..] == d[1..] + [e];
      FirstMatchAfterAppend(d[1..], e, w);
    }
  }
}

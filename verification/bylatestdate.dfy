/**
 * byLatestDate, the sort.Interface over a directory listing that puts the
 * most recently modified file first, and the sort.Sort call that uses it.
 * The type is declared twice in the source, identically; it is modelled once.
 */
module ByLatestDate {

  import opened Files

  /** Modification times never increase along `s`: newest first. */
  ghost predicate NewestFirst(s: seq<FileInfo>) {
    forall p, q :: 0 <= p < q < |s| ==> s[p].mtime >= s[q].mtime
  }

  /** Less(i, j): entry i was modified strictly after entry j. */
  predicate Less(f: array<FileInfo>, i: int, j: int): (b: bool)
    requires 0 <= i < f.Length && 0 <= j < f.Length
    reads f
    ensures b ==> i != j && f[i] != f[j] && f[i].mtime != f[j].mtime
  {
    f[i].mtime > f[j].mtime
  }

  /** Less is a strict order: irreflexive, asymmetric and transitive. */
  lemma LessIsStrict(f: array<FileInfo>, i: int, j: int, k: int)
    requires 0 <= i < f.Length && 0 <= j < f.Length && 0 <= k < f.Length
    ensures !Less(f, i, i)
    ensures Less(f, i, j) ==> !Less(f, j, i)
    ensures Less(f, i, j) && Less(f, j, k) ==> Less(f, i, k)
  {
  }

  /** Swap(i, j) exchanges entries i and j and changes nothing else. */
  method Swap(f: array<FileInfo>, i: int, j: int)
    requires 0 <= i < f.Length && 0 <= j < f.Length
    modifies f
    ensures f[..] == old(f[..])[i := old(f[j])][j := old(f[i])]
    ensures multiset(f[..]) == multiset(old(f[..]))
  {
    f[i], f[j] := f[j], f[i];
  }

  /**
   * sort.Sort(byLatestDate(f)), carried out as a selection sort through Less
   * and Swap: afterwards `f` holds the same entries, newest first. Entries
   * with equal times may end up in any order.
   */
  method Sort(f: array<FileInfo>)
    modifies f
    ensures multiset(f[..]) == multiset(old(f[..]))
    ensures NewestFirst(f[..])
  {
    var i := 0;
    while i < f.Length
      invariant 0 <= i <= f.Length
      invariant multiset(f[..]) == multiset(old(f[..]))
      invariant forall p, q :: 0 <= p < q < i ==> f[p].mtime >= f[q].mtime
      invariant forall p, q :: 0 <= p < i <= q < f.Length ==> f[p].mtime >= f[q].mtime
    {
      var m := i;
      var j := i + 1;
      while j < f.Length
        invariant i <= m < j <= f.Length
        invariant forall q :: i <= q < j ==> f[m].mtime >= f[q].mtime
      {
        if Less(f, j, m) {
          m := j;
        }
        j := j + 1;
      }
      Swap(f, i, m);
      i := i + 1;
    }
  }
}

/**
 * An abstract directory tree standing in for the in-memory filesystem the
 * repository is cloned into. A directory either lists its entries, in the
 * order ReadDir returns them, or cannot be read.
 *
 * The reference reading of a tree is `Flatten`: every file in depth-first
 * listing order, together with the names of the directories leading to it.
 */
module FileTree {

  datatype Entry =
    | File(name: string, content: string)
    | Dir(name: string, listing: Listing)

  datatype Listing = Unreadable | Listed(entries: seq<Entry>)

  /** A file found in a tree: the directories from the tree's root down to it, its name and content. */
  datatype Located = Located(parents: seq<string>, name: string, content: string)

  /** Every directory of the tree can be read. */
  predicate Readable(l: Listing)
    decreases l
  {
    match l
    case Unreadable => false
    case Listed(es) => ReadableEntries(es)
  }

  predicate ReadableEntries(es: seq<Entry>)
    decreases es
  {
    |es| == 0 ||
    ((es[0].Dir? ==> Readable(es[0].listing)) && ReadableEntries(es[1..]))
  }

  /** The files of a located list, seen from one directory further up. */
  function Under(dir: string, fs: seq<Located>): (r: seq<Located>)
    ensures |r| == |fs|
    ensures forall i :: 0 <= i < |fs| ==>
      r[i] == Located([dir] + fs[i].parents, fs[i].name, fs[i].content)
  {
    seq(|fs|, i requires 0 <= i < |fs| => Located([dir] + fs[i].parents, fs[i].name, fs[i].content))
  }

  /** Dropping the head of a concatenation drops the head of its first part. */
  lemma AppendTail(a: seq<Located>, b: seq<Located>)
    requires |a| > 0
    ensures (a + b)[0] == a[0] && (a + b)[1..] == a[1..] + b
  {
  }

  /** Every file of the tree, depth-first in listing order; an unreadable directory holds none. */
  function Flatten(l: Listing): (r: seq<Located>)
    decreases l
  {
    match l
    case Unreadable => []
    case Listed(es) => FlattenEntries(es)
  }

  function FlattenEntries(es: seq<Entry>): (r: seq<Located>)
    decreases es
  {
    if |es| == 0 then []
    else FlattenEntry(es[0]) + FlattenEntries(es[1..])
  }

  function FlattenEntry(e: Entry): (r: seq<Located>)
    decreases e
  {
    match e
    case File(name, content) => [Located([], name, content)]
    case Dir(name, l) => Under(name, Flatten(l))
  }
}

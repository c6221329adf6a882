/**
 * The header linker: every h2, h3 and h4 heading of a document gets an `id`
 * derived from its `innerHTML`, so that anchors can point at it.
 *
 * The document is not modelled: the three heading collections the script
 * obtains from `document.getElementsByTagName` are given as sequences of
 * heading objects, in document order.
 */
module HeaderLinker {
  import opened Slugs

  /** A heading element: its markup is read, its `id` attribute is written. */
  class Heading {
    /** The heading's `innerHTML`, which the script never writes. */
    const content: string
    /** The heading's `id` attribute. */
    var id: string

    constructor (content: string, id: string)
      ensures this.content == content && this.id == id
    {
      this.content := content;
      this.id := id;
    }
  }

  /** Every heading in any of the collections. */
  ghost function Headings(collections: seq<seq<Heading>>): set<Heading> {
    set c, h | c in collections && h in c :: h
  }

  lemma InHeadings(collections: seq<seq<Heading>>, c: seq<Heading>, h: Heading)
    requires c in collections && h in c
    ensures h in Headings(collections)
  {
  }

  /** Every heading in `hs` has the id that its content determines. */
  ghost predicate Linked(hs: set<Heading>)
    reads hs
  {
    forall h :: h in hs ==> h.id == Slug(h.content)
  }

  /**
   * `LinkHeaders`: walks the collections in order (h2, then h3, then h4),
   * skips a collection whose first element is `undefined` (an empty one),
   * and sets the `id` of every heading of the others to the slug of its
   * content, whatever `id` it had before. The same heading object may sit in
   * more than one collection: its id depends only on its content, so it ends
   * up the same either way.
   */
  method LinkHeaders(h2: seq<Heading>, h3: seq<Heading>, h4: seq<Heading>)
    modifies Headings([h2, h3, h4])
    ensures Linked(Headings([h2, h3, h4]))
    ensures forall c, x :: c in [h2, h3, h4] && x in c ==> x.id == Slug(x.content)
    ensures old(Linked(Headings([h2, h3, h4]))) ==>
              forall h :: h in Headings([h2, h3, h4]) ==> h.id == old(h.id)
  {
    var headers := [h2, h3, h4];
    ghost var all := Headings(headers);
    // The headings whose id has been written so far.
    ghost var done: set<Heading> := {};
    for i := 0 to |headers|
      invariant Linked(done)
      invariant forall j, x :: 0 <= j < i && x in headers[j] ==> x in done
      invariant forall x :: x in all && x !in done ==> x.id == old(x.id)
    {
      var h := headers[i];
      if |h| == 0 {
        // `h[0] == undefined`: there is no heading at this level.
        continue;
      } else {
        for k := 0 to |h|
          invariant Linked(done)
          invariant forall j, x :: 0 <= j < i && x in headers[j] ==> x in done
          invariant forall m :: 0 <= m < k ==> h[m] in done
          invariant forall x :: x in all && x !in done ==> x.id == old(x.id)
        {
          InHeadings(headers, h, h[k]);
          h[k].id := Slug(h[k].content);
          done := done + {h[k]};
        }
      }
    }
  }
}

/** PDFLinkHandler of main.py: turns the identifiers captured from a page's
    markup into content links and removes duplicate links, keeping the order
    in which each link was first seen (the behaviour of dict.fromkeys). */
module LinkHandler {

  /** The host and directory every scraped content link is built on. */
  const CONTENT_DIR: string := "https://content-eu-central-1.knowunity.com/CONTENT"

  /** The link for one captured identifier. */
  function ContentLink(capture: string): string
  {
    CONTENT_DIR + "/" + capture + ".pdf"
  }

  /** Different captures give different links. */
  lemma ContentLinkInjective(a: string, b: string)
    ensures ContentLink(a) == ContentLink(b) ==> a == b
  {
    var n := |CONTENT_DIR| + 1;
    assert a == ContentLink(a)[n..n + |a|];
    assert b == ContentLink(b)[n..n + |b|];
  }

  predicate Distinct<T(==)>(s: seq<T>)
  {
    forall i, j :: 0 <= i < j < |s| ==> s[i] != s[j]
  }

  /** The position at which `x` first occurs in `s`. */
  function FirstIndex<T(==)>(s: seq<T>, x: T): (i: nat)
    requires x in s
    ensures i < |s| && s[i] == x && x !in s[..i]
  {
    if s[0] == x then 0
    else
      var i := 1 + FirstIndex(s[1..], x);
      assert s[..i] == [s[0]] + s[1..][..i - 1];
      i
  }

  /** Any position of `x` that has no earlier occurrence is the first index. */
  lemma FirstIndexUnique<T>(s: seq<T>, x: T, i: nat)
    requires i < |s| && s[i] == x && x !in s[..i]
    ensures FirstIndex(s, x) == i
  {
  }

  /** Extending a sequence does not move the first occurrence of an element
      that is already present. */
  lemma FirstIndexOfPrefix<T>(s: seq<T>, k: nat, x: T)
    requires k <= |s| && x in s[..k]
    ensures x in s && FirstIndex(s, x) == FirstIndex(s[..k], x)
  {
    var i := FirstIndex(s[..k], x);
    assert s[..k][..i] == s[..i];
    FirstIndexUnique(s, x, i);
  }

  /** The keys of dict.fromkeys(s), in the dictionary's insertion order: each
      element is inserted when it is met and a repeated key is not moved. */
  function Dedup<T(==)>(s: seq<T>): (d: seq<T>)
    ensures |d| <= |s|
    ensures forall i :: 0 <= i < |d| ==> d[i] in s
    ensures forall i :: 0 <= i < |s| ==> s[i] in d
  {
    if s == [] then []
    else
      var init, last := s[..|s| - 1], s[|s| - 1];
      assert s == init + [last];
      var d := Dedup(init);
      if last in d then d else d + [last]
  }

  /** The result of Dedup holds no element twice. */
  lemma {:induction false} DedupDistinct<T>(s: seq<T>)
    ensures Distinct(Dedup(s))
  {
    if s != [] {
      DedupDistinct(s[..|s| - 1]);
    }
  }

  /** Elements appear in Dedup(s) in the order of their first occurrence in s. */
  lemma {:induction false} DedupFirstSeenOrder<T>(s: seq<T>, i: nat, j: nat)
    requires i < j < |Dedup(s)|
    ensures Dedup(s)[i] in s && Dedup(s)[j] in s
    ensures FirstIndex(s, Dedup(s)[i]) < FirstIndex(s, Dedup(s)[j])
  {
    var n := |s| - 1;
    var init, last := s[..n], s[n];
    assert s[..n] == init;
    var d := Dedup(init);
    var x, y := Dedup(s)[i], Dedup(s)[j];
    assert x == d[i];
    FirstIndexOfPrefix(s, n, x);
    if j < |d| {
      assert y == d[j];
      DedupFirstSeenOrder(init, i, j);
      FirstIndexOfPrefix(s, n, y);
    } else {
      assert y == last && last !in init;
      FirstIndexUnique(s, last, n);
    }
  }

  /** Positions in Dedup(s) are ordered as the first occurrences in s. */
  lemma DedupPositionOrder<T>(s: seq<T>, i: nat, j: nat)
    requires i < |Dedup(s)| && j < |Dedup(s)|
    ensures Dedup(s)[i] in s && Dedup(s)[j] in s
    ensures i < j <==> FirstIndex(s, Dedup(s)[i]) < FirstIndex(s, Dedup(s)[j])
  {
    if i < j {
      DedupFirstSeenOrder(s, i, j);
    } else if j < i {
      DedupFirstSeenOrder(s, j, i);
    }
  }

  /** Dedup leaves a sequence without repetitions as it is. */
  lemma {:induction false} DedupOfDistinct<T>(s: seq<T>)
    requires Distinct(s)
    ensures Dedup(s) == s
  {
    if s != [] {
      var n := |s| - 1;
      assert Distinct(s[..n]);
      DedupOfDistinct(s[..n]);
      assert s[n] !in s[..n];
      assert s == s[..n] + [s[n]];
    }
  }

  /** Removing duplicates twice is the same as removing them once. */
  lemma DedupIdempotent<T>(s: seq<T>)
    ensures Dedup(Dedup(s)) == Dedup(s)
  {
    DedupDistinct(s);
    DedupOfDistinct(Dedup(s));
  }

  /** The list comprehension inside remove_duplicates. */
  function Links(captures: seq<string>): seq<string>
  {
    seq(|captures|, i requires 0 <= i < |captures| => ContentLink(captures[i]))
  }

  /** A capture's link first occurs in Links(captures) where the capture
      itself first occurs in captures. */
  lemma FirstIndexOfLink(captures: seq<string>, c: string)
    requires c in captures
    ensures ContentLink(c) in Links(captures)
    ensures FirstIndex(Links(captures), ContentLink(c)) == FirstIndex(captures, c)
  {
    var links := Links(captures);
    var i := FirstIndex(captures, c);
    forall k | 0 <= k < i
      ensures links[..i][k] != ContentLink(c)
    {
      assert captures[..i][k] == captures[k];
      ContentLinkInjective(captures[k], c);
    }
    FirstIndexUnique(links, ContentLink(c), i);
  }

  /** PDFLinkHandler.remove_duplicates: every output is the link of some
      capture, every capture's link is in the output, and no link is listed
      twice. */
  function RemoveDuplicates(captures: seq<string>): (links: seq<string>)
    ensures |links| <= |captures|
    ensures captures == [] ==> links == []
    ensures forall c :: c in captures ==> ContentLink(c) in links
    ensures forall i :: 0 <= i < |links| ==>
              exists k :: 0 <= k < |captures| && links[i] == ContentLink(captures[k])
    ensures Distinct(links)
  {
    var all := Links(captures);
    DedupDistinct(all);
    assert forall k :: 0 <= k < |captures| ==> all[k] == ContentLink(captures[k]);
    Dedup(all)
  }

  /** A capture first seen before another one has its link listed before the
      other's link: the output is in first-occurrence order. */
  lemma RemoveDuplicatesFirstSeen(captures: seq<string>, a: string, b: string)
    requires a in captures && b in captures
    requires FirstIndex(captures, a) < FirstIndex(captures, b)
    ensures ContentLink(a) in RemoveDuplicates(captures)
    ensures ContentLink(b) in RemoveDuplicates(captures)
    ensures FirstIndex(RemoveDuplicates(captures), ContentLink(a))
          < FirstIndex(RemoveDuplicates(captures), ContentLink(b))
  {
    var all := Links(captures);
    var d := RemoveDuplicates(captures);
    assert d == Dedup(all);
    var la, lb := ContentLink(a), ContentLink(b);
    FirstIndexOfLink(captures, a);
    FirstIndexOfLink(captures, b);
    DedupPositionOrder(all, FirstIndex(d, la), FirstIndex(d, lb));
  }

  /** Three pairwise different elements with the first repeated in third
      place collapse to the three elements in first-seen order. */
  lemma DedupRepeatedFirst<T>(a: T, b: T, c: T)
    requires a != b && a != c && b != c
    ensures Dedup([a, b, a, c]) == [a, b, c]
  {
    var s1, s2, s3, s4 := [a], [a, b], [a, b, a], [a, b, a, c];
    assert s1[..0] == [] && Dedup(s1) == [a];
    assert s2[..1] == s1 && Dedup(s2) == [a, b];
    assert s3[..2] == s2 && Dedup(s3) == [a, b];
    assert s4[..3] == s3;
  }

  /** remove_duplicates on ["a", "b", "a", "c"] gives the links of a, b and c
      in that order. */
  lemma RemoveDuplicatesExample()
    ensures RemoveDuplicates(["a", "b", "a", "c"])
         == [ContentLink("a"), ContentLink("b"), ContentLink("c")]
  {
    var la, lb, lc := ContentLink("a"), ContentLink("b"), ContentLink("c");
    ContentLinkInjective("a", "b");
    ContentLinkInjective("a", "c");
    ContentLinkInjective("b", "c");
    assert Links(["a", "b", "a", "c"]) == [la, lb, la, lc];
    DedupRepeatedFirst(la, lb, lc);
  }
}

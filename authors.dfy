/** The most common author of a page: the author lists are flattened, tallied
    into a dictionary whose keys keep their order of first insertion, and the
    keys are reduced pairwise, keeping the running choice only while its
    count is strictly greater than the next key's. */
module Authors {

  import opened Wrappers
  import opened Books

  /** An item's author list; an item without one contributes nothing. */
  function AuthorsOf(v: Volume): seq<string> {
    match v.authors
    case Some(a) => a
    case None => []
  }

  /** Every author of every item, in item order (the `flatMap`). */
  function AllAuthors(items: seq<Volume>): seq<string> {
    if items == [] then [] else AllAuthors(items[..|items| - 1]) + AuthorsOf(items[|items| - 1])
  }

  /** Flattening distributes over concatenation of pages. */
  lemma {:induction false} AllAuthorsConcat(xs: seq<Volume>, ys: seq<Volume>)
    ensures AllAuthors(xs + ys) == AllAuthors(xs) + AllAuthors(ys)
  {
    if ys != [] {
      var zs := xs + ys;
      assert zs[..|zs| - 1] == xs + ys[..|ys| - 1];
      AllAuthorsConcat(xs, ys[..|ys| - 1]);
    } else {
      assert xs + ys == xs;
    }
  }

  /** The flattened list holds exactly the authors some item names. */
  lemma {:induction false} AllAuthorsMembers(items: seq<Volume>)
    ensures forall a :: a in AllAuthors(items) <==>
              exists i :: 0 <= i < |items| && a in AuthorsOf(items[i])
  {
    if items != [] {
      var init := items[..|items| - 1];
      AllAuthorsMembers(init);
      forall a | a in AllAuthors(items)
        ensures exists i :: 0 <= i < |items| && a in AuthorsOf(items[i])
      {
        if a in AllAuthors(init) {
          var i :| 0 <= i < |init| && a in AuthorsOf(init[i]);
          assert a in AuthorsOf(items[i]);
        } else {
          assert a in AuthorsOf(items[|items| - 1]);
        }
      }
      forall a | exists i :: 0 <= i < |items| && a in AuthorsOf(items[i])
        ensures a in AllAuthors(items)
      {
        var i :| 0 <= i < |items| && a in AuthorsOf(items[i]);
        if i < |items| - 1 {
          assert a in AuthorsOf(init[i]);
        }
      }
    }
  }

  /** Inserting an item without authors anywhere on a page leaves the
      flattened author list, and so every tally, unchanged. */
  lemma AuthorlessItemContributesNothing(front: seq<Volume>, v: Volume, back: seq<Volume>)
    requires AuthorsOf(v) == []
    ensures AllAuthors(front + [v] + back) == AllAuthors(front + back)
  {
    var with := front + [v];
    assert AllAuthors(with) == AllAuthors(front) by {
      assert with[..|with| - 1] == front;
      assert AllAuthors(with) == AllAuthors(front) + AuthorsOf(v);
    }
    AllAuthorsConcat(with, back);
    AllAuthorsConcat(front, back);
  }

  // ---------------------------------------------------------------------
  // First occurrences and the order of the dictionary's keys

  predicate Distinct(s: seq<string>) {
    forall i, j :: 0 <= i < j < |s| ==> s[i] != s[j]
  }

  /** The position at which `x` first occurs in `s`. */
  function FirstIndex(s: seq<string>, x: string): (i: nat)
    requires x in s
    ensures i < |s| && s[i] == x && x !in s[..i]
  {
    if s[0] == x then 0
    else
      var i := 1 + FirstIndex(s[1..], x);
      assert s[..i] == [s[0]] + s[1..][..i - 1];
      i
  }

  /** A position holding `x` with no earlier `x` is the first index. */
  lemma FirstIndexUnique(s: seq<string>, x: string, i: nat)
    requires i < |s| && s[i] == x && x !in s[..i]
    ensures FirstIndex(s, x) == i
  {
  }

  /** Keys in the order a fresh object acquires them when the authors are
      written into it one after another: each author at its first occurrence. */
  function KeyOrder(s: seq<string>): (k: seq<string>)
    ensures |k| <= |s|
  {
    if s == [] then []
    else
      var k := KeyOrder(s[..|s| - 1]);
      if s[|s| - 1] in k then k else k + [s[|s| - 1]]
  }

  /** Every author is a key exactly once. */
  lemma {:induction false} KeyOrderKeys(s: seq<string>)
    ensures Distinct(KeyOrder(s))
    ensures forall x :: x in KeyOrder(s) <==> x in s
  {
    if s != [] {
      var p := s[..|s| - 1];
      KeyOrderKeys(p);
      assert s == p + [s[|s| - 1]];
    }
  }

  /** Extending a sequence does not move a first occurrence. */
  lemma FirstIndexOfPrefix(p: seq<string>, q: seq<string>, y: string)
    requires y in p
    ensures FirstIndex(p + q, y) == FirstIndex(p, y)
  {
    var f := FirstIndex(p, y);
    assert (p + q)[..f] == p[..f];
    FirstIndexUnique(p + q, y, f);
  }

  /** The keys are sorted by where each author first occurs. */
  lemma {:induction false} KeyOrderByFirstIndex(s: seq<string>, i: nat, j: nat)
    requires i < j < |KeyOrder(s)|
    ensures KeyOrder(s)[i] in s && KeyOrder(s)[j] in s
    ensures FirstIndex(s, KeyOrder(s)[i]) < FirstIndex(s, KeyOrder(s)[j])
  {
    KeyOrderKeys(s);
    var p, x := s[..|s| - 1], s[|s| - 1];
    var kp := KeyOrder(p);
    assert s == p + [x];
    KeyOrderKeys(p);
    var ki, kj := KeyOrder(s)[i], KeyOrder(s)[j];
    assert ki == kp[i] && ki in p;
    FirstIndexOfPrefix(p, [x], ki);
    if j < |kp| {
      assert kj == kp[j] && kj in p;
      KeyOrderByFirstIndex(p, i, j);
      FirstIndexOfPrefix(p, [x], kj);
    } else {
      assert kj == x && x !in s[..|s| - 1];
      FirstIndexUnique(s, x, |s| - 1);
    }
  }

  // ---------------------------------------------------------------------
  // The tally (the first `reduce`, which writes into an object in place)

  /** Counts every author into a dictionary, starting from an empty object
      and adding one to the author's entry (absent reads as 0). Returns the
      dictionary and the order in which its keys were inserted. */
  method TallyAuthors(authors: seq<string>) returns (counts: map<string, nat>, keys: seq<string>)
    ensures forall a :: a in counts <==> a in authors
    ensures forall a :: a in counts ==> counts[a] == multiset(authors)[a]
    ensures keys == KeyOrder(authors)
  {
    counts, keys := map[], [];
    var i := 0;
    while i < |authors|
      invariant 0 <= i <= |authors|
      invariant forall a :: a in counts <==> a in authors[..i]
      invariant forall a :: a in counts ==> counts[a] == multiset(authors[..i])[a]
      invariant keys == KeyOrder(authors[..i])
    {
      var a := authors[i];
      assert authors[..i + 1] == authors[..i] + [a];
      assert authors[..i + 1][..i] == authors[..i];
      KeyOrderKeys(authors[..i]);
      if a !in counts {
        keys := keys + [a];
      }
      counts := counts[a := (if a in counts then counts[a] else 0) + 1];
      i := i + 1;
    }
    assert authors[..i] == authors;
  }

  // ---------------------------------------------------------------------
  // The pairwise reduction over the keys (the second `reduce`)

  /** `Object.keys(counts).reduce((a, b) => counts[a] > counts[b] ? a : b)`:
      a left fold with no initial value, so it starts from the first key. The
      result has the largest count, and every key after it has a strictly
      smaller one: among tied keys the last one wins. */
  function ReduceKeys(counts: map<string, nat>, keys: seq<string>): (w: string)
    requires |keys| > 0 && Distinct(keys)
    requires forall k :: k in keys ==> k in counts
    ensures w in keys
  {
    if |keys| == 1 then keys[0]
    else
      var init := keys[..|keys| - 1];
      var a := ReduceKeys(counts, init);
      var b := keys[|keys| - 1];
      assert keys == init + [b];
      if counts[a] > counts[b] then a else b
  }

  /** The reduce returns a key with the largest count, and every key after it
      has a strictly smaller count: among tied keys the last one wins. */
  lemma {:induction false} ReduceKeysMaximal(counts: map<string, nat>, keys: seq<string>)
    requires |keys| > 0 && Distinct(keys)
    requires forall k :: k in keys ==> k in counts
    ensures forall k :: k in keys ==> counts[k] <= counts[ReduceKeys(counts, keys)]
    ensures forall j, l :: 0 <= j < l < |keys| && keys[j] == ReduceKeys(counts, keys) ==>
              counts[keys[l]] < counts[keys[j]]
  {
    if |keys| > 1 {
      var init := keys[..|keys| - 1];
      ReduceKeysMaximal(counts, init);
      assert keys == init + [keys[|keys| - 1]];
    }
  }

  /** Ties go to the later key: with two authors of equal count the second
      key is chosen. */
  lemma ReduceKeepsLaterOnTie(counts: map<string, nat>, a: string, b: string)
    requires a in counts && b in counts && a != b
    requires counts[a] == counts[b]
    ensures ReduceKeys(counts, [a, b]) == b
  {
  }

  // ---------------------------------------------------------------------
  // What "most common" means

  /** `w` occurs in `s`, no author occurs more often, and among the authors
      that occur as often, `w` is the one whose first occurrence is latest. */
  ghost predicate IsMostCommon(s: seq<string>, w: string) {
    && w in s
    && (forall a :: a in s ==> multiset(s)[a] <= multiset(s)[w])
    && (forall a :: a in s && multiset(s)[a] == multiset(s)[w] ==> FirstIndex(s, a) <= FirstIndex(s, w))
  }

  /** At most one author is the most common one. */
  lemma MostCommonUnique(s: seq<string>, w1: string, w2: string)
    requires IsMostCommon(s, w1) && IsMostCommon(s, w2)
    ensures w1 == w2
  {
  }

  /** The dictionary the tally builds for `s`: each author to its number of
      occurrences. */
  ghost function Tally(s: seq<string>): map<string, nat> {
    map a | a in s :: multiset(s)[a]
  }

  /** The author the key reduce picks from the tally of a non-empty `s`. */
  ghost function MostCommonOf(s: seq<string>): string
    requires s != []
  {
    KeyOrderKeys(s);
    ReduceKeys(Tally(s), KeyOrder(s))
  }

  /** Reducing the tally of `s` over its keys picks the most common author. */
  lemma ReduceChoosesMostCommon(s: seq<string>)
    requires s != []
    ensures IsMostCommon(s, MostCommonOf(s))
  {
    var counts := Tally(s);
    var keys := KeyOrder(s);
    KeyOrderKeys(s);
    assert s[0] in keys;
    var w := ReduceKeys(counts, keys);
    ReduceKeysMaximal(counts, keys);
    assert w in s;
    forall a | a in s
      ensures multiset(s)[a] <= multiset(s)[w]
    {
      assert a in keys && counts[a] <= counts[w];
    }
    var j :| 0 <= j < |keys| && keys[j] == w;
    forall a | a in s && multiset(s)[a] == multiset(s)[w]
      ensures FirstIndex(s, a) <= FirstIndex(s, w)
    {
      assert a in keys;
      var l :| 0 <= l < |keys| && keys[l] == a;
      assert counts[a] == counts[w];
      assert l <= j;
      if l < j {
        KeyOrderByFirstIndex(s, l, j);
      }
    }
  }

  /** The author lines 36-42 compute for a page: `None` when no item has any
      author, where the key reduce has no initial value and throws. */
  method MostCommonAuthor(items: seq<Volume>) returns (r: Option<string>)
    ensures r.None? <==> |AllAuthors(items)| == 0
    ensures r.Some? ==> IsMostCommon(AllAuthors(items), r.value)
  {
    var all := AllAuthors(items);
    var counts, keys := TallyAuthors(all);
    KeyOrderKeys(all);
    if keys == [] {
      return None;
    }
    assert counts == Tally(all);
    ReduceChoosesMostCommon(all);
    r := Some(ReduceKeys(counts, keys));
  }

  /** Two authors with two books each: the one first seen second wins. */
  lemma TieBreakExample()
    ensures IsMostCommon(["Ann", "Bob", "Bob", "Ann"], "Bob")
  {
  }
}

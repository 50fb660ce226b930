/**
  The quote record and the read-only queries over the quote list:
  looking up an id, removing by id, the category pool of `showRandomQuote`
  and the sorted category list of `populateCategories` / `displayCategories`.
 */
module Quotes {
  import opened Text
  import opened Seqs

  datatype Option<T> = None | Some(value: T)

  /** One stored quote `{id, text, category}`. */
  datatype Quote = Quote(id: int, text: string, category: string)

  /** The built-in list used when nothing is stored. */
  function Seed(): (s: seq<Quote>)
    ensures |s| == 3
    ensures forall i, j :: 0 <= i < j < |s| ==> s[i].id != s[j].id
  {
    [ Quote(1, "The best way to predict the future is to invent it.", "Inspiration"),
      Quote(2, "Life is what happens when you\U{2019}re busy making other plans.", "Life"),
      Quote(3, "In the middle of every difficulty lies opportunity.", "Motivation") ]
  }

  /** The ids of `qs`, position by position. */
  function IdsOf(qs: seq<Quote>): (ids: seq<int>)
    ensures |ids| == |qs|
    ensures forall k :: 0 <= k < |qs| ==> ids[k] == qs[k].id
  {
    seq(|qs|, k requires 0 <= k < |qs| => qs[k].id)
  }

  /** An id is listed iff some record carries it. */
  lemma IdsOfMembers(qs: seq<Quote>)
    ensures forall x :: x in IdsOf(qs) <==> exists q :: q in qs && q.id == x
  {
    forall x | x in IdsOf(qs) ensures exists q :: q in qs && q.id == x {
      var k :| 0 <= k < |qs| && IdsOf(qs)[k] == x;
      assert qs[k] in qs;
    }
  }

  // ---------------------------------------------------------------- lookup

  /** `qs.findIndex(q => q.id === id)`: the first position holding `id`, or -1. */
  function IndexOfId(qs: seq<Quote>, id: int): (i: int)
    ensures -1 <= i < |qs|
    ensures i == -1 <==> id !in IdsOf(qs)
    ensures 0 <= i ==> qs[i].id == id && forall k :: 0 <= k < i ==> qs[k].id != id
    decreases |qs|
  {
    if qs == [] then -1
    else if qs[0].id == id then
      assert IdsOf(qs)[0] == id;
      0
    else
      var j := IndexOfId(qs[1..], id);
      assert id in IdsOf(qs) <==> id in IdsOf(qs[1..]) by {
        assert IdsOf(qs) == [qs[0].id] + IdsOf(qs[1..]);
      }
      if j == -1 then -1 else j + 1
  }

  /** The lookup reads only the ids, so lists with the same ids answer alike. */
  lemma IndexOfIdSameIds(a: seq<Quote>, b: seq<Quote>, id: int)
    requires IdsOf(a) == IdsOf(b)
    ensures IndexOfId(a, id) == IndexOfId(b, id)
  {
  }

  /** The loop `findIndex` runs. */
  method FindIndex(qs: seq<Quote>, id: int) returns (i: int)
    ensures i == IndexOfId(qs, id)
  {
    i := 0;
    while i < |qs| && qs[i].id != id
      invariant 0 <= i <= |qs|
      invariant forall k :: 0 <= k < i ==> qs[k].id != id
    {
      i := i + 1;
    }
    if i == |qs| {
      i := -1;
    }
  }

  // ---------------------------------------------------------------- remove

  function OtherId(id: int): Quote -> bool {
    (q: Quote) => q.id != id
  }

  /** `quotes.filter(q => q.id !== id)` in `removeQuote`. */
  function RemoveById(qs: seq<Quote>, id: int): (r: seq<Quote>)
    ensures forall k :: 0 <= k < |r| ==> r[k].id != id
    ensures forall q :: multiset(r)[q] == if q.id == id then 0 else multiset(qs)[q]
  {
    Filter(qs, OtherId(id))
  }

  /** Removal keeps the relative order of the records that stay. */
  lemma RemoveKeepsOrder(qs: seq<Quote>, id: int)
    ensures IsSubsequence(RemoveById(qs, id), qs)
  {
    FilterIsSubsequence(qs, OtherId(id));
  }

  /** Removal acts on each part of a list separately. */
  lemma RemoveAppend(a: seq<Quote>, b: seq<Quote>, id: int)
    ensures RemoveById(a + b, id) == RemoveById(a, id) + RemoveById(b, id)
  {
    FilterAppend(a, b, OtherId(id));
  }

  /** Removing an id that no record carries changes nothing. */
  lemma RemoveAbsent(qs: seq<Quote>, id: int)
    requires id !in IdsOf(qs)
    ensures RemoveById(qs, id) == qs
  {
    assert forall k :: 0 <= k < |qs| ==> IdsOf(qs)[k] == qs[k].id;
    FilterKeepsAll(qs, OtherId(id));
  }

  /** Removing the id of a record just appended under an unused id gives back the list before it. */
  lemma RemoveUndoesAppend(qs: seq<Quote>, q: Quote)
    requires q.id !in IdsOf(qs)
    ensures RemoveById(qs + [q], q.id) == qs
  {
    RemoveAppend(qs, [q], q.id);
    RemoveAbsent(qs, q.id);
    assert RemoveById([q], q.id) == [];
  }

  /** Removing twice is removing once. */
  lemma RemoveIdempotent(qs: seq<Quote>, id: int)
    ensures RemoveById(RemoveById(qs, id), id) == RemoveById(qs, id)
  {
    FilterIdempotent(qs, OtherId(id));
  }

  // ---------------------------------------------------------------- category pool

  /** The comparison `q.category.toLowerCase() === category.toLowerCase()`. */
  predicate SameCategory(q: Quote, target: string) {
    Lower(q.category) == Lower(target)
  }

  function CategoryIs(target: string): Quote -> bool {
    (q: Quote) => SameCategory(q, target)
  }

  /** The pool `showRandomQuote(category)` draws from: every quote when no (or an empty) category is given. */
  function Pool(qs: seq<Quote>, category: Option<string>): (r: seq<Quote>)
    ensures category == None || category == Some("") ==> r == qs
    ensures category.Some? && category.value != "" ==>
      && (forall q :: q in r <==> q in qs && SameCategory(q, category.value))
      && (forall q :: multiset(r)[q] == if SameCategory(q, category.value) then multiset(qs)[q] else 0)
  {
    if category.Some? && category.value != "" then Filter(qs, CategoryIs(category.value)) else qs
  }

  /** The pool is a sub-sequence of the list: the quotes keep their order. */
  lemma PoolKeepsOrder(qs: seq<Quote>, category: Option<string>)
    ensures IsSubsequence(Pool(qs, category), qs)
  {
    if category.Some? && category.value != "" {
      FilterIsSubsequence(qs, CategoryIs(category.value));
    } else {
      FilterKeepsAll(qs, (q: Quote) => true);
      FilterIsSubsequence(qs, (q: Quote) => true);
    }
  }

  /** The category filter ignores the case of the target. */
  lemma PoolIgnoresCase(qs: seq<Quote>, c: string)
    ensures Pool(qs, Some(c)) == Pool(qs, Some(Lower(c)))
  {
    LowerIdempotent(c);
    if c != "" {
      FilterAgreeing(qs, CategoryIs(c), CategoryIs(Lower(c)));
    }
  }

  /** A listed category has a non-empty pool: its button always finds a quote. */
  lemma PoolOfListedCategory(qs: seq<Quote>, c: string)
    requires c in Categories(qs)
    ensures Pool(qs, Some(c)) != []
  {
  }

  // ---------------------------------------------------------------- categories

  predicate StrictlySorted(s: seq<string>) {
    forall i, j :: 0 <= i < j < |s| ==> LexLess(s[i], s[j])
  }

  /** Adds `c` to a sorted set of strings held as a strictly increasing sequence. */
  function InsertSorted(s: seq<string>, c: string): (r: seq<string>)
    requires StrictlySorted(s)
    ensures StrictlySorted(r)
    ensures forall x :: x in r <==> x in s || x == c
    decreases |s|
  {
    if s == [] then [c]
    else if c == s[0] then s
    else if LexLess(c, s[0]) then
      assert forall j :: 0 < j < |s| ==> LexLess(c, s[j]) by {
        forall j | 0 < j < |s| ensures LexLess(c, s[j]) {
          LexTransitive(c, s[0], s[j]);
        }
      }
      [c] + s
    else
      LexTotal(c, s[0]);
      var rest := InsertSorted(s[1..], c);
      assert forall x :: x in rest ==> LexLess(s[0], x) by {
        forall x | x in rest ensures LexLess(s[0], x) {
          if x != c {
            var j :| 1 <= j < |s| && s[j] == x;
          }
        }
      }
      assert s == [s[0]] + s[1..];
      [s[0]] + rest
  }

  /** `[...new Set(quotes.map(q => q.category))].sort()`: each category once, in order. */
  function Categories(qs: seq<Quote>): (r: seq<string>)
    ensures StrictlySorted(r)
    ensures forall c :: c in r <==> exists q :: q in qs && q.category == c
    decreases |qs|
  {
    if qs == [] then []
    else
      var init := qs[..|qs| - 1];
      var last := qs[|qs| - 1];
      assert qs == init + [last];
      InsertSorted(Categories(init), last.category)
  }

  /** A category appears in the list at most once. */
  lemma CategoriesDistinct(qs: seq<Quote>)
    ensures forall i, j :: 0 <= i < j < |Categories(qs)| ==> Categories(qs)[i] != Categories(qs)[j]
  {
    var r := Categories(qs);
    forall i, j | 0 <= i < j < |r| ensures r[i] != r[j] {
      LexIrreflexive(r[i]);
    }
  }

  /** A strictly sorted sequence is determined by its elements, so any sort of the distinct categories gives `Categories`. */
  lemma {:induction false} SortedUnique(a: seq<string>, b: seq<string>)
    requires StrictlySorted(a) && StrictlySorted(b)
    requires forall x :: x in a <==> x in b
    ensures a == b
    decreases |a|
  {
    assert a != [] ==> a[0] in a;
    assert b != [] ==> b[0] in b;
    if a != [] && b != [] {
      if a[0] != b[0] {
        assert a[0] in a && b[0] in b;
        var i :| 0 <= i < |b| && b[i] == a[0];
        var j :| 0 <= j < |a| && a[j] == b[0];
        LexAsymmetric(a[0], b[0]);
        assert false;
      }
      forall x ensures x in a[1..] <==> x in b[1..] {
        if x in a[1..] {
          assert x != a[0] by {
            var k :| 1 <= k < |a| && a[k] == x;
            LexIrreflexive(a[0]);
          }
          assert x in b;
        }
        if x in b[1..] {
          assert x != b[0] by {
            var k :| 1 <= k < |b| && b[k] == x;
            LexIrreflexive(b[0]);
          }
          assert x in a;
        }
      }
      SortedUnique(a[1..], b[1..]);
    }
  }

  /** The category list of any arrangement of the same records is the same. */
  lemma CategoriesOfPermutation(a: seq<Quote>, b: seq<Quote>)
    requires multiset(a) == multiset(b)
    ensures Categories(a) == Categories(b)
  {
    forall x ensures x in Categories(a) <==> x in Categories(b) {
      if x in Categories(a) {
        var q :| q in a && q.category == x;
        assert q in multiset(b);
      }
      if x in Categories(b) {
        var q :| q in b && q.category == x;
        assert q in multiset(a);
      }
    }
    SortedUnique(Categories(a), Categories(b));
  }
}

/**
 * The listing of pages: the repository's candidates in store order,
 * restricted to one language when one is asked for, and the filter the
 * controller applies to them.
 */
module Listing {
  import opened PageTypes
  import opened Access

  /** The repository's enumeration lists every stored key exactly once. */
  predicate Enumerates(order: seq<PageIdentity>, m: Store) {
    && (forall i, j :: 0 <= i < j < |order| ==> order[i] != order[j])
    && m.Keys == set k | k in order
  }

  /** No identity occurs twice. */
  predicate DistinctIds(es: seq<Entry>) {
    forall i, j :: 0 <= i < j < |es| ==> es[i].id != es[j].id
  }

  predicate LanguageMatches(id: PageIdentity, language: Option<string>) {
    language.None? || id.language == language.value
  }

  /** xs is ys with some elements left out, the rest in their order. */
  predicate IsSubsequence<T(==)>(xs: seq<T>, ys: seq<T>)
    decreases |ys|
  {
    || xs == []
    || (&& ys != []
        && ((xs[0] == ys[0] && IsSubsequence(xs[1..], ys[1..])) || IsSubsequence(xs, ys[1..])))
  }

  /**
   * findAll, or findByPageIdentityLanguage when a language is given: the keys
   * in store order, restricted to that language.
   */
  function Candidates(order: seq<PageIdentity>, language: Option<string>): (r: seq<PageIdentity>)
    ensures forall k :: k in r <==> k in order && LanguageMatches(k, language)
    ensures |r| <= |order|
    ensures (forall i, j :: 0 <= i < j < |order| ==> order[i] != order[j]) ==>
      forall i, j :: 0 <= i < j < |r| ==> r[i] != r[j]
  {
    if order == [] then []
    else
      var rest := Candidates(order[1..], language);
      assert forall k :: k in order[1..] ==> k in order;
      if LanguageMatches(order[0], language) then
        assert order[0] !in order[1..] ==> order[0] !in rest;
        [order[0]] + rest
      else rest
  }

  /** The test applied to each candidate: list visibility and the section filter. */
  predicate Keep(p: Page, section: Option<PageSection>, caller: Caller) {
    ListVisible(p.status, caller) && SectionMatches(p.sections, section)
  }

  /** Every candidate paired with its page, in candidate order. */
  function Entries(m: Store, ks: seq<PageIdentity>): (r: seq<Entry>)
    requires forall k :: k in ks ==> k in m
    ensures |r| == |ks|
    ensures forall i :: 0 <= i < |ks| ==> r[i].id == ks[i] && r[i].page == m[ks[i]]
  {
    if ks == [] then [] else [Entry(ks[0], m[ks[0]])] + Entries(m, ks[1..])
  }

  /** The listing: the candidates that pass Keep, in candidate order. */
  function Listed(m: Store, ks: seq<PageIdentity>, section: Option<PageSection>, caller: Caller): (r: seq<Entry>)
    requires forall k :: k in ks ==> k in m
    ensures |r| <= |ks|
    ensures forall e :: e in r ==> e.id in ks && e.page == m[e.id] && Keep(e.page, section, caller)
  {
    if ks == [] then []
    else
      var e := Entry(ks[0], m[ks[0]]);
      (if Keep(e.page, section, caller) then [e] else []) + Listed(m, ks[1..], section, caller)
  }

  /** Listing one more candidate appends it when it passes, which is what the controller's loop does. */
  lemma {:induction false} ListedSnoc(m: Store, ks: seq<PageIdentity>, k: PageIdentity, section: Option<PageSection>, caller: Caller)
    requires forall x :: x in ks ==> x in m
    requires k in m
    ensures Listed(m, ks + [k], section, caller) ==
      Listed(m, ks, section, caller) + (if Keep(m[k], section, caller) then [Entry(k, m[k])] else [])
  {
    if ks != [] {
      assert (ks + [k])[0] == ks[0];
      assert (ks + [k])[1..] == ks[1..] + [k];
      ListedSnoc(m, ks[1..], k, section, caller);
    }
  }

  /** An entry is listed exactly when its key is a candidate, it carries the stored page, and that page passes. */
  lemma {:induction false} ListedMembers(m: Store, ks: seq<PageIdentity>, section: Option<PageSection>, caller: Caller, e: Entry)
    requires forall x :: x in ks ==> x in m
    ensures e in Listed(m, ks, section, caller) <==>
      e.id in ks && e.id in m && e.page == m[e.id] && Keep(e.page, section, caller)
  {
    if ks != [] {
      ListedMembers(m, ks[1..], section, caller, e);
      assert forall x :: x in ks <==> x == ks[0] || x in ks[1..];
    }
  }

  /** The listing keeps the candidates' order: it is a subsequence of all candidate entries. */
  lemma {:induction false} ListedIsSubsequence(m: Store, ks: seq<PageIdentity>, section: Option<PageSection>, caller: Caller)
    requires forall x :: x in ks ==> x in m
    ensures IsSubsequence(Listed(m, ks, section, caller), Entries(m, ks))
  {
    if ks != [] {
      ListedIsSubsequence(m, ks[1..], section, caller);
      var e := Entry(ks[0], m[ks[0]]);
      var rest := Listed(m, ks[1..], section, caller);
      var all := Entries(m, ks);
      assert all[0] == e && all[1..] == Entries(m, ks[1..]);
      if Keep(e.page, section, caller) {
        assert Listed(m, ks, section, caller) == [e] + rest;
        assert ([e] + rest)[0] == all[0] && ([e] + rest)[1..] == rest;
      } else {
        assert Listed(m, ks, section, caller) == rest;
      }
    }
  }

  /** Distinct candidates give a listing that names each page at most once. */
  lemma {:induction false} ListedDistinct(m: Store, ks: seq<PageIdentity>, section: Option<PageSection>, caller: Caller)
    requires forall x :: x in ks ==> x in m
    requires forall i, j :: 0 <= i < j < |ks| ==> ks[i] != ks[j]
    ensures DistinctIds(Listed(m, ks, section, caller))
  {
    if ks != [] {
      var tail := ks[1..];
      assert forall i, j :: 0 <= i < j < |tail| ==> tail[i] != tail[j] by {
        forall i, j | 0 <= i < j < |tail| ensures tail[i] != tail[j] {
          assert tail[i] == ks[i + 1] && tail[j] == ks[j + 1];
        }
      }
      ListedDistinct(m, tail, section, caller);
      var rest := Listed(m, tail, section, caller);
      var e := Entry(ks[0], m[ks[0]]);
      if Keep(e.page, section, caller) {
        assert ks[0] !in tail by {
          forall j | 0 <= j < |tail| ensures tail[j] != ks[0] {
            assert tail[j] == ks[j + 1];
          }
        }
        forall j | 0 <= j < |rest| ensures rest[j].id != ks[0] {
          ListedMembers(m, tail, section, caller, rest[j]);
        }
        assert Listed(m, ks, section, caller) == [e] + rest;
      }
    }
  }
}

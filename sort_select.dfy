/**
 * The gallery's sort buttons (src/components/gallery/SortSelect.tsx): the
 * four sort options and the URL a choice navigates to, built by copying the
 * current query parameters and editing the copy.
 */
module SortSelect {
  import opened Seqs

  /** `SORT_OPTIONS`. */
  const SortOptions: seq<string> := ["dateDesc", "dateAsc", "uploadDesc", "ratingDesc"]

  /** `DEFAULT_SORT`. */
  const DefaultSort := "dateDesc"

  /** The query parameter holding the sort. */
  const SortKey := "sort"

  lemma SortOptionsShape()
    ensures |SortOptions| == 4 && DefaultSort in SortOptions && Distinct(SortOptions)
  {
  }

  /** Query parameters in order, as `URLSearchParams` keeps them. */
  type Params = seq<(string, string)>

  function Named(name: string): ((string, string)) -> bool {
    (p: (string, string)) => p.0 == name
  }

  function Unnamed(name: string): ((string, string)) -> bool {
    (p: (string, string)) => p.0 != name
  }

  /** `params.delete(name)`: every pair with that name goes. */
  function Deleted(ps: Params, name: string): (r: Params)
    ensures name !in Keys(r)
  {
    var r := Filter(ps, Unnamed(name));
    assert forall i :: 0 <= i < |r| ==> Keys(r)[i] != name;
    r
  }

  /** The first pair with the name takes the value; later ones go. */
  function ReplaceFirst(ps: Params, name: string, value: string): Params
    requires name in Keys(ps)
  {
    if ps[0].0 == name then [(name, value)] + Deleted(ps[1..], name)
    else
      assert Keys(ps) == [ps[0].0] + Keys(ps[1..]);
      [ps[0]] + ReplaceFirst(ps[1..], name, value)
  }

  /** `params.set(name, value)`: replace the first pair with the name and drop the rest, or append. */
  function SetParam(ps: Params, name: string, value: string): Params {
    if name in Keys(ps) then ReplaceFirst(ps, name, value) else ps + [(name, value)]
  }

  lemma {:induction false} ReplaceFirstCorrect(ps: Params, name: string, value: string)
    requires name in Keys(ps)
    ensures Filter(ReplaceFirst(ps, name, value), Named(name)) == [(name, value)]
    ensures Filter(ReplaceFirst(ps, name, value), Unnamed(name)) == Filter(ps, Unnamed(name))
  {
    var tail := Deleted(ps[1..], name);
    var r := ReplaceFirst(ps, name, value);
    if ps[0].0 == name {
      FilterConcat([(name, value)], tail, Named(name));
      FilterConcat([(name, value)], tail, Unnamed(name));
      FilterNone(tail, Named(name));
      FilterUnnamedTwice(ps[1..], name);
    } else {
      assert Keys(ps) == [ps[0].0] + Keys(ps[1..]);
      ReplaceFirstCorrect(ps[1..], name, value);
      FilterConcat([ps[0]], ReplaceFirst(ps[1..], name, value), Named(name));
      FilterConcat([ps[0]], ReplaceFirst(ps[1..], name, value), Unnamed(name));
    }
  }

  lemma FilterUnnamedTwice(ps: Params, name: string)
    ensures Filter(Deleted(ps, name), Unnamed(name)) == Deleted(ps, name)
  {
    FilterAll(Deleted(ps, name), Unnamed(name));
  }

  /** After `set`, the name has exactly one pair, holding the value, and no other pair changed. */
  lemma SetParamCorrect(ps: Params, name: string, value: string)
    ensures Filter(SetParam(ps, name, value), Named(name)) == [(name, value)]
    ensures Filter(SetParam(ps, name, value), Unnamed(name)) == Filter(ps, Unnamed(name))
  {
    if name in Keys(ps) {
      ReplaceFirstCorrect(ps, name, value);
    } else {
      FilterConcat(ps, [(name, value)], Named(name));
      FilterConcat(ps, [(name, value)], Unnamed(name));
      assert forall i :: 0 <= i < |ps| ==> !Named(name)(ps[i]) by {
        forall i | 0 <= i < |ps| ensures !Named(name)(ps[i]) {
          assert Keys(ps)[i] == ps[i].0;
        }
      }
      FilterNone(ps, Named(name));
      assert Filter(ps, Unnamed(name)) + [] == Filter(ps, Unnamed(name));
    }
  }

  /** `name=value` pairs joined by "&" (percent-encoding is not modelled). */
  function Query(ps: Params): (r: string)
    ensures r == [] <==> ps == []
  {
    if ps == [] then []
    else
      var pair := ps[0].0 + "=" + ps[0].1;
      assert pair[|ps[0].0|] == '=';
      if |ps| == 1 then pair else pair + "&" + Query(ps[1..])
  }

  /** `${pathname}${query ? `?${query}` : ""}`. */
  function Target(pathname: string, query: string): string {
    pathname + (if query != [] then "?" + query else [])
  }

  /** A copy of the current parameters that the handler edits. */
  class SearchParams {
    var entries: Params

    constructor (entries: Params)
      ensures this.entries == entries
    {
      this.entries := entries;
    }

    method Delete(name: string)
      modifies this
      ensures entries == Deleted(old(entries), name)
    {
      entries := Deleted(entries, name);
    }

    method Set(name: string, value: string)
      modifies this
      ensures entries == SetParam(old(entries), name, value)
    {
      entries := SetParam(entries, name, value);
    }

    function ToString(): string
      reads this
    {
      Query(entries)
    }
  }

  /** The parameters after choosing `value`. */
  function Updated(ps: Params, value: string): Params {
    if value == DefaultSort then Deleted(ps, SortKey) else SetParam(ps, SortKey, value)
  }

  /** `onChange(value)`: the URL the router is sent to. */
  method OnChange(pathname: string, current: Params, value: string) returns (target: string)
    requires value in SortOptions
    ensures target == Target(pathname, Query(Updated(current, value)))
  {
    var params := new SearchParams(current);
    if value == DefaultSort {
      params.Delete(SortKey);
    } else {
      params.Set(SortKey, value);
    }
    var query := params.ToString();
    target := pathname + (if query != [] then "?" + query else []);
  }

  /**
   * The default sort leaves no "sort" parameter, any other sets exactly one;
   * every other parameter is kept, in order; and the URL has a "?" exactly
   * when some parameter remains.
   */
  lemma UpdatedCorrect(ps: Params, value: string, pathname: string)
    ensures value == DefaultSort ==> SortKey !in Keys(Updated(ps, value))
    ensures value != DefaultSort ==> Filter(Updated(ps, value), Named(SortKey)) == [(SortKey, value)]
    ensures Filter(Updated(ps, value), Unnamed(SortKey)) == Filter(ps, Unnamed(SortKey))
    ensures Target(pathname, Query(Updated(ps, value))) == pathname <==> Updated(ps, value) == []
  {
    if value == DefaultSort {
      FilterUnnamedTwice(ps, SortKey);
    } else {
      SetParamCorrect(ps, SortKey, value);
    }
    var q := Query(Updated(ps, value));
    if q != [] {
      assert |Target(pathname, q)| > |pathname|;
    }
  }
}

/**
 * The row-grouping fold shared by the trip listings: a left join yields one row per
 * (parent, child) pair, or a single row with a NULL child when the parent has none;
 * the fold turns that flat stream into one record per parent key.
 */
module Grouping {
  import opened Wrappers

  /** One joined row: the trip id, the trip's other columns, and the country name (NULL for none). */
  datatype JoinRow<H> = JoinRow(key: int, head: H, country: Option<string>)

  /** One record per trip id: the columns of its first row and the countries collected so far. */
  datatype Group<H> = Group(key: int, head: H, countries: seq<string>)

  predicate HasKey<H>(rows: seq<JoinRow<H>>, k: int)
  {
    exists i :: 0 <= i < |rows| && rows[i].key == k
  }

  predicate Distinct(s: seq<int>)
  {
    forall i, j :: 0 <= i < j < |s| ==> s[i] != s[j]
  }

  /** The rows whose key is k, in row order. */
  function Filter<H>(rows: seq<JoinRow<H>>, k: int): (r: seq<JoinRow<H>>)
    ensures forall j :: 0 <= j < |r| ==> r[j].key == k && r[j] in rows
    ensures r != [] <==> HasKey(rows, k)
  {
    if rows == [] then []
    else
      var init, last := rows[..|rows| - 1], rows[|rows| - 1];
      assert HasKey(init, k) ==> HasKey(rows, k) by {
        if HasKey(init, k) {
          var i :| 0 <= i < |init| && init[i].key == k;
          assert rows[i].key == k;
        }
      }
      assert HasKey(rows, k) ==> HasKey(init, k) || last.key == k by {
        if HasKey(rows, k) {
          var i :| 0 <= i < |rows| && rows[i].key == k;
          if i < |init| { assert init[i].key == k; }
        }
      }
      if last.key == k then Filter(init, k) + [last] else Filter(init, k)
  }

  /** The non-NULL country names of a row stream, in row order. */
  function CountryNames<H>(rows: seq<JoinRow<H>>): seq<string>
  {
    if rows == [] then []
    else
      var last := rows[|rows| - 1];
      CountryNames(rows[..|rows| - 1]) + (if last.country.Some? then [last.country.value] else [])
  }

  /** The distinct keys of a row stream, in order of first appearance. */
  function Keys<H>(rows: seq<JoinRow<H>>): (r: seq<int>)
    ensures forall k :: k in r <==> HasKey(rows, k)
    ensures Distinct(r)
  {
    if rows == [] then []
    else
      var init, last := rows[..|rows| - 1], rows[|rows| - 1];
      var ks := Keys(init);
      assert forall k :: HasKey(rows, k) <==> HasKey(init, k) || last.key == k by {
        forall k ensures HasKey(rows, k) <==> HasKey(init, k) || last.key == k {
          if HasKey(init, k) {
            var i :| 0 <= i < |init| && init[i].key == k;
            assert rows[i].key == k;
          }
          if HasKey(rows, k) {
            var i :| 0 <= i < |rows| && rows[i].key == k;
            if i < |init| { assert init[i].key == k; }
          }
        }
      }
      if last.key in ks then ks else ks + [last.key]
  }

  /** The record for key k: the first row with that key donates the fields; every row with it donates its country. */
  function GroupOf<H>(rows: seq<JoinRow<H>>, k: int): Group<H>
    requires HasKey(rows, k)
  {
    var fs := Filter(rows, k);
    Group(k, fs[0].head, CountryNames(fs))
  }

  /** Reference definition of the fold: one record per distinct key, in order of first appearance. */
  function Grouped<H>(rows: seq<JoinRow<H>>): (r: seq<Group<H>>)
    ensures |r| == |Keys(rows)|
    ensures forall i :: 0 <= i < |r| ==> r[i].key == Keys(rows)[i]
    ensures forall i, j :: 0 <= i < j < |r| ==> r[i].key != r[j].key
    ensures forall k :: HasKey(rows, k) <==> exists i :: 0 <= i < |r| && r[i].key == k
    ensures forall i :: 0 <= i < |r| ==> HasKey(rows, r[i].key) && r[i] == GroupOf(rows, r[i].key)
  {
    var ks := Keys(rows);
    var r := seq(|ks|, i requires 0 <= i < |ks| => GroupOf(rows, ks[i]));
    assert forall k :: HasKey(rows, k) ==> exists i :: 0 <= i < |r| && r[i].key == k by {
      forall k | HasKey(rows, k) ensures exists i :: 0 <= i < |r| && r[i].key == k {
        var i :| 0 <= i < |ks| && ks[i] == k;
        assert r[i].key == k;
      }
    }
    r
  }

  /**
   * Reference definition of the single-trip fold: a stream of rows that all belong to one trip
   * becomes the record of its first row plus every non-NULL country, or None for an empty stream.
   */
  function Collapse<H>(rows: seq<JoinRow<H>>): Option<Group<H>>
  {
    if rows == [] then None else Some(Group(rows[0].key, rows[0].head, CountryNames(rows)))
  }

  /** The fold's state after reading `rows`: the insertion order and the dictionary agree with the reference. */
  ghost predicate Folded<H>(rows: seq<JoinRow<H>>, dict: map<int, Group<H>>, order: seq<int>)
  {
    && order == Keys(rows)
    && (forall k :: k in dict <==> k in order)
    && (forall k :: k in dict ==> dict[k] == GroupOf(rows, k))
  }

  /** The imperative fold: a dictionary keyed by trip id plus the order in which keys were first inserted. */
  method GroupByKey<H>(rows: seq<JoinRow<H>>) returns (groups: seq<Group<H>>)
    ensures groups == Grouped(rows)
  {
    var dict: map<int, Group<H>> := map[];
    var order: seq<int> := [];
    var i := 0;
    FoldedEmpty(rows);
    while i < |rows|
      invariant 0 <= i <= |rows|
      invariant Folded(rows[..i], dict, order)
    {
      assert rows[..i + 1] == rows[..i] + [rows[i]];
      var dict', order' := AddRow(dict, order, rows[i]);
      FoldStep(rows[..i], rows[i], dict, order, dict', order');
      dict, order, i := dict', order', i + 1;
    }
    assert rows[..i] == rows;
    assert Folded(rows, dict, order);
    FoldedOrderInDict(rows, dict, order);
    groups := seq(|order|, j requires 0 <= j < |order| => dict[order[j]]);
    FoldedValues(rows, dict, order, groups);
  }

  /**
   * One iteration of the fold: the first row for a key creates its record with an empty country list;
   * every row with a non-NULL country appends it to its key's record.
   */
  method AddRow<H>(dict: map<int, Group<H>>, order: seq<int>, row: JoinRow<H>)
    returns (dict': map<int, Group<H>>, order': seq<int>)
    ensures order' == if row.key in dict then order else order + [row.key]
    ensures forall k :: k != row.key ==> (k in dict' <==> k in dict) && (k in dict ==> dict'[k] == dict[k])
    ensures var extra := if row.country.Some? then [row.country.value] else [];
      row.key in dict' &&
      dict'[row.key] == if row.key in dict
                        then dict[row.key].(countries := dict[row.key].countries + extra)
                        else Group(row.key, row.head, extra)
  {
    dict', order' := dict, order;
    if row.key !in dict' {
      dict' := dict'[row.key := Group(row.key, row.head, [])];
      order' := order' + [row.key];
    }
    if row.country.Some? {
      var g := dict'[row.key];
      dict' := dict'[row.key := g.(countries := g.countries + [row.country.value])];
    } else {
      assert dict'[row.key].countries + [] == dict'[row.key].countries;
    }
  }

  /** Before any row is read, the empty dictionary and key order are in step with the reference. */
  lemma FoldedEmpty<H>(rows: seq<JoinRow<H>>)
    ensures Folded<H>(rows[..0], map[], [])
  {
    assert rows[..0] == [];
  }

  /** One iteration of the fold keeps its state in step with the reference. */
  lemma FoldStep<H>(prefix: seq<JoinRow<H>>, row: JoinRow<H>,
                    dict: map<int, Group<H>>, order: seq<int>, dict': map<int, Group<H>>, order': seq<int>)
    requires Folded(prefix, dict, order)
    requires order' == if row.key in dict then order else order + [row.key]
    requires forall k :: k != row.key ==> (k in dict' <==> k in dict) && (k in dict ==> dict'[k] == dict[k])
    requires var extra := if row.country.Some? then [row.country.value] else [];
      row.key in dict' &&
      dict'[row.key] == if row.key in dict
                        then dict[row.key].(countries := dict[row.key].countries + extra)
                        else Group(row.key, row.head, extra)
    ensures Folded(prefix + [row], dict', order')
  {
    GroupOfSnoc(prefix, row);
    var next := prefix + [row];
    assert row.key in dict <==> HasKey(prefix, row.key);
    forall k ensures k in dict' <==> k in order' {
      if k != row.key {
        assert k in order' <==> k in order;
      }
    }
    forall k | k in dict' ensures dict'[k] == GroupOf(next, k) {
      if k != row.key {
        assert HasKey(prefix, k);
      }
    }
  }

  lemma FoldedOrderInDict<H>(rows: seq<JoinRow<H>>, dict: map<int, Group<H>>, order: seq<int>)
    requires Folded(rows, dict, order)
    ensures forall j :: 0 <= j < |order| ==> order[j] in dict
  {
    forall j | 0 <= j < |order| ensures order[j] in dict {
      assert order[j] in order;
    }
  }

  /** Reading the dictionary's values in insertion order gives the reference fold. */
  lemma FoldedValues<H>(rows: seq<JoinRow<H>>, dict: map<int, Group<H>>, order: seq<int>, groups: seq<Group<H>>)
    requires Folded(rows, dict, order)
    requires |groups| == |order|
    requires forall j :: 0 <= j < |order| ==> order[j] in dict && groups[j] == dict[order[j]]
    ensures groups == Grouped(rows)
  {
    forall j | 0 <= j < |groups| ensures groups[j] == Grouped(rows)[j] {
      assert order[j] in order;
    }
  }

  /** How appending one row changes each record: only the record for its key, by creating it or by adding its country. */
  lemma GroupOfSnoc<H>(rows: seq<JoinRow<H>>, row: JoinRow<H>)
    ensures Keys(rows + [row]) == if row.key in Keys(rows) then Keys(rows) else Keys(rows) + [row.key]
    ensures forall k :: HasKey(rows, k) && k != row.key ==> GroupOf(rows + [row], k) == GroupOf(rows, k)
    ensures HasKey(rows + [row], row.key)
    ensures var extra := if row.country.Some? then [row.country.value] else [];
      GroupOf(rows + [row], row.key) ==
        if HasKey(rows, row.key)
        then GroupOf(rows, row.key).(countries := GroupOf(rows, row.key).countries + extra)
        else Group(row.key, row.head, extra)
  {
    var rs := rows + [row];
    assert rs[..|rs| - 1] == rows;
    forall k | HasKey(rows, k) && k != row.key ensures GroupOf(rs, k) == GroupOf(rows, k) {
      assert Filter(rs, k) == Filter(rows, k);
    }
    var fs := Filter(rows, row.key);
    assert Filter(rs, row.key) == fs + [row];
    assert (fs + [row])[..|fs|] == fs;
    if !HasKey(rows, row.key) {
      assert fs == [];
      assert Filter(rs, row.key) == [row];
      assert [row][..0] == [];
      assert CountryNames([row]) == (if row.country.Some? then [row.country.value] else []);
      assert GroupOf(rs, row.key).head == row.head;
    }
  }

  // Properties of the reference fold.

  lemma {:induction false} FilterAppend<H>(a: seq<JoinRow<H>>, b: seq<JoinRow<H>>, k: int)
    ensures Filter(a + b, k) == Filter(a, k) + Filter(b, k)
    decreases |b|
  {
    if b == [] {
      assert a + b == a;
    } else {
      var init := b[..|b| - 1];
      assert (a + b)[..|a + b| - 1] == a + init;
      FilterAppend(a, init, k);
    }
  }

  lemma {:induction false} CountryNamesAppend<H>(a: seq<JoinRow<H>>, b: seq<JoinRow<H>>)
    ensures CountryNames(a + b) == CountryNames(a) + CountryNames(b)
    decreases |b|
  {
    if b == [] {
      assert a + b == a;
    } else {
      var init := b[..|b| - 1];
      assert (a + b)[..|a + b| - 1] == a + init;
      CountryNamesAppend(a, init);
    }
  }

  /** The record for a key takes its fields from the first row carrying that key. */
  lemma FirstRowDonates<H>(rows: seq<JoinRow<H>>, k: int, j: int)
    requires 0 <= j < |rows| && rows[j].key == k
    requires forall i :: 0 <= i < j ==> rows[i].key != k
    ensures HasKey(rows, k) && GroupOf(rows, k).head == rows[j].head
  {
    assert rows == rows[..j] + ([rows[j]] + rows[j + 1..]);
    FilterAppend(rows[..j], [rows[j]] + rows[j + 1..], k);
    FilterAppend([rows[j]], rows[j + 1..], k);
    forall i | 0 <= i < j ensures rows[..j][i].key != k {
      assert rows[..j][i] == rows[i];
    }
    assert Filter([rows[j]], k) == [rows[j]] by {
      assert [rows[j]][..0] == [];
    }
  }

  /** Rows after the first one for a key never replace its fields; they only append their countries. */
  lemma LaterRowsOnlyAppend<H>(rows: seq<JoinRow<H>>, more: seq<JoinRow<H>>, k: int)
    requires HasKey(rows, k)
    ensures HasKey(rows + more, k)
    ensures GroupOf(rows + more, k)
         == GroupOf(rows, k).(countries := GroupOf(rows, k).countries + CountryNames(Filter(more, k)))
  {
    FilterAppend(rows, more, k);
    CountryNamesAppend(Filter(rows, k), Filter(more, k));
  }

  lemma {:induction false} CountryNamesMembership<H>(rows: seq<JoinRow<H>>, c: string)
    ensures c in CountryNames(rows) <==> exists i :: 0 <= i < |rows| && rows[i].country == Some(c)
    decreases |rows|
  {
    if rows != [] {
      var init := rows[..|rows| - 1];
      CountryNamesMembership(init, c);
      if exists i :: 0 <= i < |init| && init[i].country == Some(c) {
        var i :| 0 <= i < |init| && init[i].country == Some(c);
        assert rows[i].country == Some(c);
      }
      if exists i :: 0 <= i < |rows| && rows[i].country == Some(c) {
        var i :| 0 <= i < |rows| && rows[i].country == Some(c);
        if i < |init| {
          assert init[i].country == Some(c);
        }
      }
    }
  }

  lemma {:induction false} FilterMembership<H>(rows: seq<JoinRow<H>>, k: int, r: JoinRow<H>)
    ensures r in Filter(rows, k) <==> r in rows && r.key == k
    decreases |rows|
  {
    if rows != [] {
      var init := rows[..|rows| - 1];
      FilterMembership(init, k, r);
      assert rows == init + [rows[|rows| - 1]];
    }
  }

  /** A record's countries are exactly the non-NULL country names of the rows with its key. */
  lemma CountryMembership<H>(rows: seq<JoinRow<H>>, k: int, c: string)
    requires HasKey(rows, k)
    ensures c in GroupOf(rows, k).countries
        <==> exists i :: 0 <= i < |rows| && rows[i].key == k && rows[i].country == Some(c)
  {
    var fs := Filter(rows, k);
    CountryNamesMembership(fs, c);
    if exists j :: 0 <= j < |fs| && fs[j].country == Some(c) {
      var j :| 0 <= j < |fs| && fs[j].country == Some(c);
      FilterMembership(rows, k, fs[j]);
      var i :| 0 <= i < |rows| && rows[i] == fs[j];
      assert rows[i].key == k && rows[i].country == Some(c);
    }
    if exists i :: 0 <= i < |rows| && rows[i].key == k && rows[i].country == Some(c) {
      var i :| 0 <= i < |rows| && rows[i].key == k && rows[i].country == Some(c);
      FilterMembership(rows, k, rows[i]);
      var j :| 0 <= j < |fs| && fs[j] == rows[i];
      assert fs[j].country == Some(c);
    }
  }

  /** A trip whose rows all carry a NULL country gets an empty country list, and only such a trip. */
  lemma EmptyCountries<H>(rows: seq<JoinRow<H>>, k: int)
    requires HasKey(rows, k)
    ensures GroupOf(rows, k).countries == []
        <==> forall i :: 0 <= i < |rows| && rows[i].key == k ==> rows[i].country.None?
  {
    var cs := GroupOf(rows, k).countries;
    if cs != [] {
      CountryMembership(rows, k, cs[0]);
    }
    if exists i :: 0 <= i < |rows| && rows[i].key == k && rows[i].country.Some? {
      var i :| 0 <= i < |rows| && rows[i].key == k && rows[i].country.Some?;
      CountryMembership(rows, k, rows[i].country.value);
    }
  }

  predicate SortedByKey<H>(rows: seq<JoinRow<H>>)
  {
    forall i, j :: 0 <= i < j < |rows| ==> rows[i].key <= rows[j].key
  }

  /** Rows sorted by trip id give the distinct ids in strictly ascending order. */
  lemma {:induction false} SortedKeysAscending<H>(rows: seq<JoinRow<H>>)
    requires SortedByKey(rows)
    ensures forall i, j :: 0 <= i < j < |Keys(rows)| ==> Keys(rows)[i] < Keys(rows)[j]
    decreases |rows|
  {
    if rows != [] {
      var init, last := rows[..|rows| - 1], rows[|rows| - 1];
      assert SortedByKey(init) by {
        forall i, j | 0 <= i < j < |init| ensures init[i].key <= init[j].key {
          assert init[i] == rows[i] && init[j] == rows[j];
        }
      }
      SortedKeysAscending(init);
      var ks := Keys(init);
      forall k | k in ks ensures k <= last.key {
        var i :| 0 <= i < |init| && init[i].key == k;
        assert rows[i].key == k;
      }
      if last.key !in ks {
        var ks' := ks + [last.key];
        forall i, j | 0 <= i < j < |ks'| ensures ks'[i] < ks'[j] {
          if j == |ks| {
            assert ks[i] in ks;
          } else {
            assert ks'[i] == ks[i] && ks'[j] == ks[j];
          }
        }
      }
    }
  }

  /** Folding only the rows of one id gives the same record as that id's entry in the full fold. */
  lemma CollapseFilter<H>(rows: seq<JoinRow<H>>, k: int)
    ensures Collapse(Filter(rows, k)) == if HasKey(rows, k) then Some(GroupOf(rows, k)) else None
  {
  }

  lemma CollapseAgreesWithGrouped<H>(rows: seq<JoinRow<H>>)
    ensures forall i :: 0 <= i < |Grouped(rows)| ==>
      Collapse(Filter(rows, Grouped(rows)[i].key)) == Some(Grouped(rows)[i])
  {
    forall i | 0 <= i < |Grouped(rows)|
      ensures Collapse(Filter(rows, Grouped(rows)[i].key)) == Some(Grouped(rows)[i])
    {
      CollapseFilter(rows, Grouped(rows)[i].key);
    }
  }
}

/**
 * The `channels` table: an append-only relation with an INTEGER PRIMARY KEY
 * `id` and a UNIQUE `link` column. Nothing ever updates or deletes a row,
 * so SQLite assigns each insert the id one past the largest id so far
 * (1 for the first row), and a refused insert consumes no id.
 */
module Channels {

  /** Bounds of an SQLite INTEGER; Python's sqlite3 refuses to bind an int outside them. */
  const MinInteger: int := -0x8000_0000_0000_0000
  const MaxInteger: int := 0x7FFF_FFFF_FFFF_FFFF

  /** LIMIT of the category query. */
  const QueryLimit: nat := 20

  /** One row, in the column order of the CREATE TABLE statement. */
  datatype Row = Row(
    id: int,
    userId: int,
    link: string,
    name: string,
    description: string,
    category: string,
    subscribers: int)

  predicate FitsInteger(n: int) {
    MinInteger <= n <= MaxInteger
  }

  predicate HasLink(rows: seq<Row>, link: string) {
    exists i :: 0 <= i < |rows| && rows[i].link == link
  }

  predicate LinksUnique(rows: seq<Row>) {
    forall i, j :: 0 <= i < j < |rows| ==> rows[i].link != rows[j].link
  }

  predicate IdsAscending(rows: seq<Row>) {
    forall i, j :: 0 <= i < j < |rows| ==> rows[i].id < rows[j].id
  }

  predicate IdsDescending(rows: seq<Row>) {
    forall i, j :: 0 <= i < j < |rows| ==> rows[i].id > rows[j].id
  }

  /**
   * `WHERE category=? ORDER BY id DESC` before the LIMIT: exactly the rows
   * of that category, and, when the table's ids ascend, newest first.
   */
  function InCategoryNewestFirst(rows: seq<Row>, category: string): (r: seq<Row>)
    ensures forall x :: x in r <==> x in rows && x.category == category
    ensures IdsAscending(rows) ==> IdsDescending(r)
    decreases |rows|
  {
    if rows == [] then []
    else
      var last := rows[|rows| - 1];
      var older := InCategoryNewestFirst(rows[..|rows| - 1], category);
      assert forall x :: x in rows[..|rows| - 1] ==> x in rows;
      assert IdsAscending(rows) ==> forall k :: 0 <= k < |rows| - 1 ==> rows[k].id < last.id;
      if last.category == category then [last] + older else older
  }

  /** An object that holds the table: its rows in id order, and the id the next insert gets. */
  class ChannelTable {
    var rows: seq<Row>
    var nextId: int

    /** Ids run 1, 2, ..., n in insertion order, and no link appears twice. */
    ghost predicate Valid()
      reads this
    {
      && (forall i :: 0 <= i < |rows| ==> rows[i].id == i + 1)
      && nextId == |rows| + 1
      && LinksUnique(rows)
    }

    /** `init_db` on a fresh database file: an empty table. */
    constructor ()
      ensures Valid() && rows == []
    {
      rows := [];
      nextId := 1;
    }

    /**
     * `add_channel_db`: the INSERT, which fails (and changes nothing) when the
     * link is already present or a number does not fit an SQLite INTEGER.
     * A successful insert appends one row with a fresh, largest id (which
     * then heads the listing of its category: see NewestListedFirst).
     */
    method Insert(userId: int, link: string, name: string, description: string, category: string, subscribers: int)
      returns (ok: bool)
      requires Valid()
      modifies this
      ensures Valid()
      ensures ok <==> !HasLink(old(rows), link) && FitsInteger(userId) && FitsInteger(subscribers)
      ensures ok ==> rows == old(rows) + [Row(old(nextId), userId, link, name, description, category, subscribers)]
      ensures ok ==> forall x :: x in old(rows) ==> x.id < rows[|rows| - 1].id
      ensures !ok ==> unchanged(this)
    {
      if HasLink(rows, link) || !FitsInteger(userId) || !FitsInteger(subscribers) {
        return false;
      }
      var row := Row(nextId, userId, link, name, description, category, subscribers);
      rows := rows + [row];
      nextId := nextId + 1;
      ok := true;
    }

    /**
     * `get_channels_by_cat`: at most twenty rows, all of the requested
     * category, newest first, and the newest ones: a matching row left out
     * is older than every row returned, and when fewer than twenty come
     * back none was left out.
     */
    function ChannelsByCategory(category: string): (r: seq<Row>)
      reads this
      requires Valid()
      ensures |r| <= QueryLimit
      ensures forall x :: x in r ==> x in rows && x.category == category
      ensures IdsDescending(r)
      ensures forall x, y :: x in rows && x.category == category && x !in r && y in r ==> x.id < y.id
      ensures |r| < QueryLimit ==> forall x :: x in rows && x.category == category ==> x in r
    {
      var all := InCategoryNewestFirst(rows, category);
      var r := if |all| <= QueryLimit then all else all[..QueryLimit];
      NewestKept(all, r);
      r
    }
  }

  /**
   * The table's last row, the one the latest successful insert appended,
   * comes first in the listing of its category.
   */
  lemma NewestListedFirst(table: ChannelTable)
    requires table.Valid() && table.rows != []
    ensures var last := table.rows[|table.rows| - 1];
      table.ChannelsByCategory(last.category)[0] == last
  {
    var last := table.rows[|table.rows| - 1];
    var all := InCategoryNewestFirst(table.rows, last.category);
    assert all[0] == last;
  }

  /** A prefix of a newest-first list keeps its newest rows: whatever it drops is older. */
  lemma NewestKept(all: seq<Row>, r: seq<Row>)
    requires IdsDescending(all) && r <= all
    ensures forall x, y :: x in all && x !in r && y in r ==> x.id < y.id
  {
    forall x, y | x in all && x !in r && y in r ensures x.id < y.id {
      var j :| 0 <= j < |all| && all[j] == x;
      var k :| 0 <= k < |r| && r[k] == y;
      assert all[k] == y;
      assert forall m :: 0 <= m < |r| ==> r[m] == all[m];
    }
  }
}

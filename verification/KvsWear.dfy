/** Wear leveling: empty sectors are opened in turn. */
module KvsWear {
  import opened KvsEntry
  import opened KvsFlash
  import opened KvsSectors

  /** How many sectors the rotation visits before t, once `last` was opened. */
  function Ahead(count: nat, last: nat, t: nat): (n: nat)
    requires last < count && t < count
    ensures n < count && Rotation(count, last, n) == t
  {
    if last < t then t - last - 1 else t + count - last - 1
  }

  lemma RotationIsAhead(count: nat, last: nat, j: nat)
    requires last < count && j < count
    ensures Ahead(count, last, Rotation(count, last, j)) == j
  {
  }

  /** Opening a sector brings all that lie behind it in the rotation so much nearer. */
  lemma OpeningAdvances(count: nat, last: nat, s: nat, t: nat)
    requires last < count && s < count && t < count && Ahead(count, last, s) < Ahead(count, last, t)
    ensures Ahead(count, s, t) == Ahead(count, last, t) - Ahead(count, last, s) - 1
  {
  }

  /** A search that found no better sector opened this empty one, with the sectors as they were then. */
  datatype Opening = Opening(ds: Descriptors, request: Request, sector: nat)

  /** Each opening is the first in rotation behind the one before; t could have been opened each time. */
  ghost predicate InTurn(g: Geometry, count: nat, openings: seq<Opening>, last: nat, t: nat) {
    openings != [] ==>
      var o := openings[0];
      && |o.ds| == count && last < count && t < count && o.request.Second(g, o.ds, t)
      && o.sector < count && SecondInRotation(g, o.ds, o.request, last, o.sector)
      && InTurn(g, count, openings[1..], o.sector, t)
  }

  /** Whatever is farther off in the rotation than t is opened only after t. */
  lemma {:induction false} NearerFirst(g: Geometry, count: nat, openings: seq<Opening>, last: nat, s: nat, t: nat, k: nat)
    requires last < count && s < count && t < count && Ahead(count, last, t) < Ahead(count, last, s)
    requires InTurn(g, count, openings, last, t) && k < |openings| && openings[k].sector == s
    ensures exists j :: 0 <= j < k && openings[j].sector == t
    decreases |openings|
  {
    var o := openings[0];
    FirstIsNearest(g, o, last, t);
    if o.sector == t {
      assert k != 0;
    } else {
      ApartInRotation(count, last, o.sector, t);
      OpeningAdvances(count, last, o.sector, t);
      OpeningAdvances(count, last, o.sector, s);
      NearerFirst(g, count, openings[1..], o.sector, s, t, k - 1);
      var j :| 0 <= j < k - 1 && openings[1..][j].sector == t;
      assert openings[j + 1].sector == t;
    }
  }

  lemma ApartInRotation(count: nat, last: nat, a: nat, b: nat)
    requires last < count && a < count && b < count && a != b
    ensures Ahead(count, last, a) != Ahead(count, last, b)
  {
  }

  lemma FirstIsNearest(g: Geometry, o: Opening, last: nat, t: nat)
    requires last < |o.ds| && t < |o.ds| && o.request.Second(g, o.ds, t)
    requires o.sector < |o.ds| && SecondInRotation(g, o.ds, o.request, last, o.sector)
    ensures Ahead(|o.ds|, last, o.sector) <= Ahead(|o.ds|, last, t)
  {
    var j :| 0 <= j < |o.ds| && NoSecondBefore(g, o.ds, o.request, last, j) && o.sector == Rotation(|o.ds|, last, j);
    RotationIsAhead(|o.ds|, last, j);
  }

  /** No sector is opened twice while another one is empty and may be used all the time, unless that was opened in between. */
  lemma WearIsEven(g: Geometry, count: nat, openings: seq<Opening>, s: nat, t: nat, k: nat)
    requires s < count && t < count && s != t
    requires InTurn(g, count, openings, s, t) && k < |openings| && openings[k].sector == s
    ensures exists j :: 0 <= j < k && openings[j].sector == t
  {
    NearerFirst(g, count, openings, s, s, t, k);
  }
}

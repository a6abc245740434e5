/**
 The restriction rows the endpoint creates: the maintenance marker, found or
 created on its full natural key, and the whitelist rows, one per address.
 */
module Restrictions {
  import opened Wrappers
  import opened Store

  /** The marker key matched on all four columns, `state` included. */
  predicate IsMarker(r: Restriction, category: string) {
    r.category == category && r.scope == "all" && r.value == "all" && r.state == Disabled
  }

  predicate HasMarker(rs: seq<Restriction>, category: string) {
    exists i :: 0 <= i < |rs| && IsMarker(rs[i], category)
  }

  /** The position of the first marker row, if any. */
  function FindMarker(rs: seq<Restriction>, category: string): (r: Option<nat>)
    ensures r.Some? ==> r.value < |rs| && IsMarker(rs[r.value], category)
    ensures r.Some? ==> forall j :: 0 <= j < r.value ==> !IsMarker(rs[j], category)
    ensures r.None? <==> !HasMarker(rs, category)
  {
    if |rs| == 0 then None
    else if IsMarker(rs[0], category) then Some(0)
    else
      match FindMarker(rs[1..], category)
      case None => None
      case Some(i) => Some(i + 1)
  }

  /** The row `find_or_create_by` inserts when no marker matches. */
  function NewMarker(s: Store, category: string): Restriction {
    Restriction(s.nextRestrictionId, category, "all", "all", Disabled)
  }

  /** What find-or-create appends: nothing when a marker already exists, one fresh marker otherwise. */
  function MissingMarker(s: Store, category: string): seq<Restriction> {
    if HasMarker(s.restrictions, category) then [] else [NewMarker(s, category)]
  }

  /** The store after find-or-create and the id of the marker row it found or made. */
  datatype MarkerLookup = MarkerLookup(store: Store, markerId: nat)

  /**
   `Restriction.find_or_create_by(category:, scope: 'all', value: 'all', state: 'disabled')`.
   Returns the updated store and the marker's id. Which of several matching
   rows the database returns is unspecified; the earliest one is taken here.
   */
  function FindOrCreateMarker(s: Store, category: string): (r: MarkerLookup)
    ensures r.store == s.(restrictions := s.restrictions + MissingMarker(s, category),
                      nextRestrictionId := s.nextRestrictionId + |MissingMarker(s, category)|)
    ensures exists i :: 0 <= i < |r.store.restrictions| && r.store.restrictions[i].id == r.markerId
                        && IsMarker(r.store.restrictions[i], category)
    ensures !HasMarker(s.restrictions, category) ==> r.markerId == s.nextRestrictionId
  {
    match FindMarker(s.restrictions, category)
    case Some(i) => MarkerLookup(s, s.restrictions[i].id)
    case None =>
      var (s', id) := InsertRestriction(s, category, "all", "all", Disabled);
      assert s'.restrictions[|s.restrictions|] == NewMarker(s, category);
      MarkerLookup(s', id)
  }

  /** Find-or-create is idempotent: a second call finds the row the first one found or made. */
  lemma FindOrCreateMarkerIdempotent(s: Store, category: string)
    ensures FindOrCreateMarker(FindOrCreateMarker(s, category).store, category) == FindOrCreateMarker(s, category)
  {
  }

  /** The number of marker rows in a table. */
  function CountMarkers(rs: seq<Restriction>, category: string): nat {
    if |rs| == 0 then 0
    else CountMarkers(rs[..|rs| - 1], category) + (if IsMarker(rs[|rs| - 1], category) then 1 else 0)
  }

  lemma {:induction false} CountMarkersAppend(a: seq<Restriction>, b: seq<Restriction>, category: string)
    ensures CountMarkers(a + b, category) == CountMarkers(a, category) + CountMarkers(b, category)
    decreases |b|
  {
    if |b| > 0 {
      assert (a + b)[..|a + b| - 1] == a + b[..|b| - 1];
      CountMarkersAppend(a, b[..|b| - 1], category);
    } else {
      assert a + b == a;
    }
  }

  lemma {:induction false} CountMarkersZero(rs: seq<Restriction>, category: string)
    ensures CountMarkers(rs, category) == 0 <==> !HasMarker(rs, category)
  {
    if |rs| > 0 {
      var init := rs[..|rs| - 1];
      CountMarkersZero(init, category);
      if HasMarker(init, category) {
        var i :| 0 <= i < |init| && IsMarker(init[i], category);
        assert rs[i] == init[i];
      }
      if HasMarker(rs, category) && !IsMarker(rs[|rs| - 1], category) {
        var i :| 0 <= i < |rs| && IsMarker(rs[i], category);
        assert init[i] == rs[i];
      }
    }
  }

  /** A table with exactly one marker has it at one position only. */
  lemma {:induction false} SingleMarkerUnique(rs: seq<Restriction>, category: string, i: nat, j: nat)
    requires CountMarkers(rs, category) == 1
    requires i < |rs| && j < |rs| && IsMarker(rs[i], category) && IsMarker(rs[j], category)
    ensures i == j
  {
    var init := rs[..|rs| - 1];
    var last := |rs| - 1;
    if i != last && j != last {
      assert init[i] == rs[i] && init[j] == rs[j];
      if IsMarker(rs[last], category) {
        CountMarkersZero(init, category);
      } else {
        SingleMarkerUnique(init, category, i, j);
      }
    } else if i != j {
      var other := if i == last then j else i;
      assert init[other] == rs[other];
      CountMarkersZero(init, category);
    }
  }

  /**
   After find-or-create there is at least one marker, and a new one exactly
   when there was none: a table with at most one marker ends with exactly one.
   */
  lemma FindOrCreateMarkerCount(s: Store, category: string)
    ensures CountMarkers(FindOrCreateMarker(s, category).store.restrictions, category)
         == if CountMarkers(s.restrictions, category) == 0 then 1 else CountMarkers(s.restrictions, category)
  {
    var s1 := FindOrCreateMarker(s, category).store;
    CountMarkersZero(s.restrictions, category);
    CountMarkersAppend(s.restrictions, MissingMarker(s, category), category);
    var m := MissingMarker(s, category);
    if |m| == 1 {
      assert m[..0] == [];
    }
  }

  /** One whitelist row per address, in input order, with consecutive ids from `firstId`. */
  function WhitelistRows(firstId: nat, ips: seq<string>, state: RestrictionState): (rows: seq<Restriction>) {
    seq(|ips|, i requires 0 <= i < |ips| => Restriction(firstId + i, "whitelist", "ip", ips[i], state))
  }

  /** Whitelist rows never match a marker key: their scope is `ip`, not `all`. */
  lemma {:induction false} WhitelistRowsNoMarker(firstId: nat, ips: seq<string>, state: RestrictionState, category: string)
    ensures CountMarkers(WhitelistRows(firstId, ips, state), category) == 0
  {
    var rows := WhitelistRows(firstId, ips, state);
    CountMarkersZero(rows, category);
    assert forall i :: 0 <= i < |rows| ==> rows[i].scope == "ip";
  }

  /**
   What the handler appends to the table (a missing marker, then whitelist
   rows) leaves exactly one marker if there was at most one before.
   */
  lemma MarkerThenWhitelistCount(s: Store, category: string, firstId: nat, ips: seq<string>, state: RestrictionState)
    ensures var before := CountMarkers(s.restrictions, category);
            CountMarkers(s.restrictions + MissingMarker(s, category) + WhitelistRows(firstId, ips, state), category)
              == if before == 0 then 1 else before
  {
    var marker := MissingMarker(s, category);
    var rows := WhitelistRows(firstId, ips, state);
    CountMarkersZero(s.restrictions, category);
    CountMarkersAppend(s.restrictions, marker, category);
    if |marker| == 1 {
      assert marker[..0] == [];
    }
    CountMarkersAppend(s.restrictions + marker, rows, category);
    WhitelistRowsNoMarker(firstId, ips, state, category);
  }
}

/** The seed step of `init_db` as a function of the tables, and what it
    promises: the fixed room/drawer taxonomy afterwards, idempotence, no change
    to rows already present and no change at all to the folders. */
module Seeding {
  import opened Wrappers
  import opened Registry

  /** The `salas_gavetas` dictionary, in its iteration order. */
  const SeedTaxonomy: seq<(string, seq<string>)> := [
    ("Sala 1", ["Gaveta 1", "Gaveta 2", "Gaveta 3"]),
    ("Sala 2", ["Gaveta 1", "Gaveta 2"]),
    ("Sala 3", ["Gaveta 1", "Gaveta 2", "Gaveta 3", "Gaveta 4"])
  ]

  /** The rows of the multi-row room insert. */
  const SeedRooms: seq<string> := ["Sala 1", "Sala 2", "Sala 3"]

  /** The room insert, one row after the other. It touches nothing but
      `salas` and draws one id per row attempted; what it adds is stated by
      `InsertSalasAdds`. */
  function InsertSalas(st: Store, nomes: seq<string>): (r: Store)
    ensures r.gavetas == st.gavetas && r.pastas == st.pastas
    ensures r.nextGavetaId == st.nextGavetaId && r.nextPastaId == st.nextPastaId
    ensures r.nextSalaId == st.nextSalaId + |nomes|
    decreases |nomes|
  {
    if nomes == [] then st
    else InsertSala(InsertSalas(st, nomes[..|nomes| - 1]), nomes[|nomes| - 1])
  }

  /** The drawer inserts of one room. They touch nothing but `gavetas` and
      draw one id per row attempted; what they add is stated by
      `InsertGavetasAdds`. */
  function InsertGavetas(st: Store, salaId: nat, nomes: seq<string>): (r: Store)
    requires salaId in RoomIds(st.salas)
    ensures r.salas == st.salas && r.pastas == st.pastas
    ensures r.nextSalaId == st.nextSalaId && r.nextPastaId == st.nextPastaId
    ensures r.nextGavetaId == st.nextGavetaId + |nomes|
    decreases |nomes|
  {
    if nomes == [] then st
    else
      var last := nomes[|nomes| - 1];
      InsertGaveta(InsertGavetas(st, salaId, nomes[..|nomes| - 1]), salaId, last, last)
  }

  /** The `for sala, gavetas in salas_gavetas.items()` loop: look the room's
      id up, then insert its drawers. The lookup cannot come back empty, since
      every room of the loop was inserted just before; the requires says so.
      Rooms and folders stay as they are. */
  function SeedDrawers(st: Store, tax: seq<(string, seq<string>)>): (r: Store)
    requires forall k :: 0 <= k < |tax| ==> HasSala(st.salas, tax[k].0)
    ensures r.salas == st.salas && r.pastas == st.pastas
    ensures r.nextSalaId == st.nextSalaId && r.nextPastaId == st.nextPastaId
    decreases |tax|
  {
    if tax == [] then st
    else
      var prev := SeedDrawers(st, tax[..|tax| - 1]);
      var salaId := SalaIdOf(prev.salas, tax[|tax| - 1].0).value;
      InsertGavetas(prev, salaId, tax[|tax| - 1].1)
  }

  /** One more drawer name is one more insert. */
  lemma InsertGavetasStep(st: Store, salaId: nat, nomes: seq<string>, j: nat)
    requires salaId in RoomIds(st.salas) && j < |nomes|
    ensures InsertGavetas(st, salaId, nomes[..j + 1])
         == InsertGaveta(InsertGavetas(st, salaId, nomes[..j]), salaId, nomes[j], nomes[j])
  {
    assert nomes[..j + 1][..j] == nomes[..j];
  }

  /** One more room of the taxonomy is its id lookup, which finds it, and its drawers. */
  lemma SeedDrawersStep(st: Store, tax: seq<(string, seq<string>)>, k: nat)
    requires forall k' :: 0 <= k' < |tax| ==> HasSala(st.salas, tax[k'].0)
    requires k < |tax|
    ensures SalaIdOf(st.salas, tax[k].0).Some?
    ensures SeedDrawers(st, tax[..k + 1])
         == InsertGavetas(SeedDrawers(st, tax[..k]), SalaIdOf(st.salas, tax[k].0).value, tax[k].1)
  {
    assert HasSala(st.salas, tax[k].0);
    assert tax[..k + 1][..k] == tax[..k];
  }

  lemma SeedRoomsCoverTaxonomy()
    ensures forall k :: 0 <= k < |SeedTaxonomy| ==> SeedTaxonomy[k].0 in SeedRooms
    ensures SeedRooms == [SeedTaxonomy[0].0, SeedTaxonomy[1].0, SeedTaxonomy[2].0]
  {
  }

  /** `init_db` after the tables exist: the room insert, then the drawers of
      each room. It never touches `pastas`. */
  function InitDbSpec(st: Store): (r: Store)
    ensures r.pastas == st.pastas && r.nextPastaId == st.nextPastaId
  {
    var rooms := InsertSalas(st, SeedRooms);
    InsertSalasAdds(st, SeedRooms);
    SeedRoomsCoverTaxonomy();
    SeedDrawers(rooms, SeedTaxonomy)
  }

  /** Every name is a room afterwards, the rows already there stay in place,
      and every new row carries one of the names. */
  lemma {:induction false} InsertSalasAdds(st: Store, nomes: seq<string>)
    ensures st.salas <= InsertSalas(st, nomes).salas
    ensures forall n :: n in nomes ==> HasSala(InsertSalas(st, nomes).salas, n)
    ensures forall s :: s in InsertSalas(st, nomes).salas ==> s in st.salas || s.nome in nomes
    decreases |nomes|
  {
    if nomes != [] {
      var init := nomes[..|nomes| - 1];
      InsertSalasAdds(st, init);
      var prev := InsertSalas(st, init);
      var r := InsertSalas(st, nomes);
      assert forall n :: n in nomes ==> n in init || n == nomes[|nomes| - 1];
      assert forall s :: s in prev.salas ==> s in r.salas;
    }
  }

  /** Every name is a drawer number of the room afterwards, the rows already
      there stay in place, and every new row is a drawer of that room whose
      number and name are one of the names. */
  lemma {:induction false} InsertGavetasAdds(st: Store, salaId: nat, nomes: seq<string>)
    requires salaId in RoomIds(st.salas)
    ensures st.gavetas <= InsertGavetas(st, salaId, nomes).gavetas
    ensures forall n :: n in nomes ==> HasGaveta(InsertGavetas(st, salaId, nomes).gavetas, salaId, n)
    ensures forall g :: g in InsertGavetas(st, salaId, nomes).gavetas ==>
      g in st.gavetas || (g.salaId == salaId && g.numero in nomes && g.nome == g.numero)
    decreases |nomes|
  {
    if nomes != [] {
      var init := nomes[..|nomes| - 1];
      InsertGavetasAdds(st, salaId, init);
      var prev := InsertGavetas(st, salaId, init);
      var r := InsertGavetas(st, salaId, nomes);
      assert forall n :: n in nomes ==> n in init || n == nomes[|nomes| - 1];
      assert forall g :: g in prev.gavetas ==> g in r.gavetas;
    }
  }

  /** The drawers already there stay in place, and every new drawer is one of
      the taxonomy, filed under the room of that name. */
  lemma {:induction false} SeedDrawersAdds(st: Store, tax: seq<(string, seq<string>)>)
    requires forall k :: 0 <= k < |tax| ==> HasSala(st.salas, tax[k].0)
    ensures st.gavetas <= SeedDrawers(st, tax).gavetas
    ensures forall g :: g in SeedDrawers(st, tax).gavetas ==> g in st.gavetas || exists k :: (0 <= k < |tax|
      && Sala(g.salaId, tax[k].0) in st.salas && g.numero in tax[k].1 && g.nome == g.numero)
    decreases |tax|
  {
    if tax != [] {
      var init := tax[..|tax| - 1];
      SeedDrawersAdds(st, init);
      var prev := SeedDrawers(st, init);
      var last := tax[|tax| - 1];
      var salaId := SalaIdOf(prev.salas, last.0).value;
      InsertGavetasAdds(prev, salaId, last.1);
      var r := SeedDrawers(st, tax);
      forall g | g in r.gavetas && g !in st.gavetas
        ensures exists k :: (0 <= k < |tax|
          && Sala(g.salaId, tax[k].0) in st.salas && g.numero in tax[k].1 && g.nome == g.numero)
      {
        if g in prev.gavetas {
          var k :| 0 <= k < |init| && Sala(g.salaId, init[k].0) in st.salas && g.numero in init[k].1
            && g.nome == g.numero;
          assert tax[k] == init[k];
        } else {
          assert Sala(g.salaId, tax[|tax| - 1].0) in st.salas;
        }
      }
    }
  }

  /** The rows already present stay where they are, and every row the seed
      adds is a seed row: a room of the taxonomy, or a drawer of the taxonomy
      filed under the room of that name. */
  lemma InitDbAdds(st: Store)
    ensures st.salas <= InitDbSpec(st).salas && st.gavetas <= InitDbSpec(st).gavetas
    ensures forall s :: s in InitDbSpec(st).salas ==> s in st.salas || s.nome in SeedRooms
    ensures forall g :: g in InitDbSpec(st).gavetas ==> g in st.gavetas || exists k :: (0 <= k < |SeedTaxonomy|
      && Sala(g.salaId, SeedTaxonomy[k].0) in InitDbSpec(st).salas && g.numero in SeedTaxonomy[k].1
      && g.nome == g.numero)
  {
    InsertSalasAdds(st, SeedRooms);
    SeedRoomsCoverTaxonomy();
    SeedDrawersAdds(InsertSalas(st, SeedRooms), SeedTaxonomy);
  }

  /** Room `sala` holds a drawer named `gaveta`. */
  ghost predicate HasDrawer(st: Store, sala: string, gaveta: string) {
    exists g :: Locates(st, sala, gaveta, g)
  }

  /** Every room/drawer pair of the taxonomy is present. */
  ghost predicate Seeded(st: Store) {
    forall k, j :: 0 <= k < |SeedTaxonomy| && 0 <= j < |SeedTaxonomy[k].1| ==>
      HasDrawer(st, SeedTaxonomy[k].0, SeedTaxonomy[k].1[j])
  }

  lemma {:induction false} InsertSalasValid(st: Store, nomes: seq<string>)
    requires Valid(st)
    ensures Valid(InsertSalas(st, nomes))
    decreases |nomes|
  {
    if nomes != [] {
      InsertSalasValid(st, nomes[..|nomes| - 1]);
      InsertSalaValid(InsertSalas(st, nomes[..|nomes| - 1]), nomes[|nomes| - 1]);
    }
  }

  lemma {:induction false} InsertGavetasValid(st: Store, salaId: nat, nomes: seq<string>)
    requires Valid(st) && salaId in RoomIds(st.salas)
    ensures Valid(InsertGavetas(st, salaId, nomes))
    decreases |nomes|
  {
    if nomes != [] {
      InsertGavetasValid(st, salaId, nomes[..|nomes| - 1]);
      var last := nomes[|nomes| - 1];
      InsertGavetaValid(InsertGavetas(st, salaId, nomes[..|nomes| - 1]), salaId, last, last);
    }
  }

  lemma {:induction false} SeedDrawersValid(st: Store, tax: seq<(string, seq<string>)>)
    requires Valid(st)
    requires forall k :: 0 <= k < |tax| ==> HasSala(st.salas, tax[k].0)
    ensures Valid(SeedDrawers(st, tax))
    decreases |tax|
  {
    if tax != [] {
      SeedDrawersValid(st, tax[..|tax| - 1]);
      var prev := SeedDrawers(st, tax[..|tax| - 1]);
      var salaId := SalaIdOf(prev.salas, tax[|tax| - 1].0).value;
      InsertGavetasValid(prev, salaId, tax[|tax| - 1].1);
    }
  }

  /** The seed keeps every constraint: no duplicate room name, no room with two
      drawers of one number, no dangling reference. */
  lemma InitDbValid(st: Store)
    requires Valid(st)
    ensures Valid(InitDbSpec(st))
  {
    InsertSalasValid(st, SeedRooms);
    InsertSalasAdds(st, SeedRooms);
    SeedRoomsCoverTaxonomy();
    SeedDrawersValid(InsertSalas(st, SeedRooms), SeedTaxonomy);
  }

  lemma {:induction false} SeedDrawersSeeds(st: Store, tax: seq<(string, seq<string>)>)
    requires Valid(st)
    requires forall k :: 0 <= k < |tax| ==> HasSala(st.salas, tax[k].0)
    ensures forall k, j :: 0 <= k < |tax| && 0 <= j < |tax[k].1| ==>
      HasDrawer(SeedDrawers(st, tax), tax[k].0, tax[k].1[j])
    decreases |tax|
  {
    if tax != [] {
      var init := tax[..|tax| - 1];
      SeedDrawersSeeds(st, init);
      var prev := SeedDrawers(st, init);
      var r := SeedDrawers(st, tax);
      var sala := tax[|tax| - 1].0;
      var salaId := SalaIdOf(prev.salas, sala).value;
      InsertGavetasAdds(prev, salaId, tax[|tax| - 1].1);
      forall k, j | 0 <= k < |tax| && 0 <= j < |tax[k].1|
        ensures HasDrawer(r, tax[k].0, tax[k].1[j])
      {
        if k < |tax| - 1 {
          assert tax[k] == init[k];
          assert HasDrawer(prev, init[k].0, init[k].1[j]);
          var g :| Locates(prev, tax[k].0, tax[k].1[j], g);
          assert Locates(r, tax[k].0, tax[k].1[j], g);
        } else {
          var n := tax[k].1[j];
          assert HasGaveta(r.gavetas, salaId, n);
          var g :| g in r.gavetas && g.salaId == salaId && g.numero == n;
          SeedDrawersValid(st, tax);
          assert Locates(r, sala, n, g);
        }
      }
    }
  }

  /** After the seed, every room/drawer pair of the taxonomy is present. */
  lemma InitDbSeeds(st: Store)
    requires Valid(st)
    ensures Seeded(InitDbSpec(st))
  {
    var rooms := InsertSalas(st, SeedRooms);
    InsertSalasValid(st, SeedRooms);
    InsertSalasAdds(st, SeedRooms);
    SeedRoomsCoverTaxonomy();
    SeedDrawersSeeds(rooms, SeedTaxonomy);
  }

  lemma {:induction false} InsertSalasPresent(st: Store, nomes: seq<string>)
    requires forall n :: n in nomes ==> HasSala(st.salas, n)
    ensures InsertSalas(st, nomes).salas == st.salas
    decreases |nomes|
  {
    if nomes != [] {
      InsertSalasPresent(st, nomes[..|nomes| - 1]);
    }
  }

  lemma {:induction false} InsertGavetasPresent(st: Store, salaId: nat, nomes: seq<string>)
    requires salaId in RoomIds(st.salas)
    requires forall n :: n in nomes ==> HasGaveta(st.gavetas, salaId, n)
    ensures InsertGavetas(st, salaId, nomes).gavetas == st.gavetas
    decreases |nomes|
  {
    if nomes != [] {
      InsertGavetasPresent(st, salaId, nomes[..|nomes| - 1]);
    }
  }

  lemma {:induction false} SeedDrawersPresent(st: Store, tax: seq<(string, seq<string>)>)
    requires Valid(st)
    requires forall k :: 0 <= k < |tax| ==> HasSala(st.salas, tax[k].0)
    requires forall k, j :: 0 <= k < |tax| && 0 <= j < |tax[k].1| ==> HasDrawer(st, tax[k].0, tax[k].1[j])
    ensures SeedDrawers(st, tax).gavetas == st.gavetas
    decreases |tax|
  {
    if tax != [] {
      var init := tax[..|tax| - 1];
      SeedDrawersPresent(st, init);
      var prev := SeedDrawers(st, init);
      var sala := tax[|tax| - 1].0;
      var salaId := SalaIdOf(prev.salas, sala).value;
      forall n | n in tax[|tax| - 1].1
        ensures HasGaveta(prev.gavetas, salaId, n)
      {
        var j :| 0 <= j < |tax[|tax| - 1].1| && tax[|tax| - 1].1[j] == n;
        var g :| Locates(st, sala, n, g);
        RoomByName(st.salas, Sala(salaId, sala), Sala(g.salaId, sala));
      }
      InsertGavetasPresent(prev, salaId, tax[|tax| - 1].1);
    }
  }

  /** On tables that already hold the taxonomy, the seed changes no row of any
      table (only the SERIAL sequences advance). */
  lemma InitDbOnSeeded(st: Store)
    requires Valid(st) && Seeded(st)
    ensures InitDbSpec(st).salas == st.salas
    ensures InitDbSpec(st).gavetas == st.gavetas
    ensures InitDbSpec(st).pastas == st.pastas
  {
    var rooms := InsertSalas(st, SeedRooms);
    SeedRoomsCoverTaxonomy();
    forall n | n in SeedRooms ensures HasSala(st.salas, n) {
      var k :| 0 <= k < |SeedRooms| && SeedRooms[k] == n;
      assert HasDrawer(st, SeedTaxonomy[k].0, SeedTaxonomy[k].1[0]);
      var g :| Locates(st, n, SeedTaxonomy[k].1[0], g);
      assert Sala(g.salaId, n) in st.salas;
    }
    InsertSalasPresent(st, SeedRooms);
    InsertSalasValid(st, SeedRooms);
    assert forall sala, gaveta, g :: Locates(st, sala, gaveta, g) ==> Locates(rooms, sala, gaveta, g);
    SeedDrawersPresent(rooms, SeedTaxonomy);
  }

  /** Running the seed a second time leaves every table as the first run left it. */
  lemma InitDbIdempotent(st: Store)
    requires Valid(st)
    ensures InitDbSpec(InitDbSpec(st)).salas == InitDbSpec(st).salas
    ensures InitDbSpec(InitDbSpec(st)).gavetas == InitDbSpec(st).gavetas
    ensures InitDbSpec(InitDbSpec(st)).pastas == st.pastas
  {
    InitDbValid(st);
    InitDbSeeds(st);
    InitDbOnSeeded(InitDbSpec(st));
  }

  /** No name occurs twice. */
  predicate NoRepeats(nomes: seq<string>) {
    forall i, j :: 0 <= i < j < |nomes| ==> nomes[i] != nomes[j]
  }

  /** The drawers that inserting `nomes` into a room without drawers adds, ids
      drawn from `id0` on. */
  function NewDrawers(id0: nat, salaId: nat, nomes: seq<string>): (r: seq<Gaveta>)
    ensures |r| == |nomes|
  {
    seq(|nomes|, i requires 0 <= i < |nomes| => Gaveta(id0 + i, salaId, nomes[i], nomes[i]))
  }

  lemma {:induction false} NewDrawersSnoc(id0: nat, salaId: nat, nomes: seq<string>)
    requires nomes != []
    ensures NewDrawers(id0, salaId, nomes) == NewDrawers(id0, salaId, nomes[..|nomes| - 1])
      + [Gaveta(id0 + |nomes| - 1, salaId, nomes[|nomes| - 1], nomes[|nomes| - 1])]
  {
  }

  /** Every drawer of a fresh batch belongs to the batch's room and carries
      one of the batch's names as its number. */
  lemma {:induction false} NewDrawersRow(id0: nat, salaId: nat, nomes: seq<string>, g: Gaveta)
    requires g in NewDrawers(id0, salaId, nomes)
    ensures g.salaId == salaId && g.numero in nomes
  {
    var added := NewDrawers(id0, salaId, nomes);
    var i :| 0 <= i < |added| && added[i] == g;
  }

  /** Inserting distinct names into a room that has no drawer yet adds one
      row per name, in order, ids drawn consecutively. */
  lemma {:induction false} InsertGavetasFresh(st: Store, salaId: nat, nomes: seq<string>)
    requires salaId in RoomIds(st.salas)
    requires forall g :: g in st.gavetas ==> g.salaId != salaId
    requires NoRepeats(nomes)
    ensures InsertGavetas(st, salaId, nomes).gavetas == st.gavetas + NewDrawers(st.nextGavetaId, salaId, nomes)
    decreases |nomes|
  {
    if nomes != [] {
      var init := nomes[..|nomes| - 1];
      var last := nomes[|nomes| - 1];
      InsertGavetasFresh(st, salaId, init);
      var prev := InsertGavetas(st, salaId, init);
      assert last !in init;
      assert !HasGaveta(prev.gavetas, salaId, last) by {
        forall g | g in prev.gavetas && g.salaId == salaId ensures g.numero != last {
          assert g in NewDrawers(st.nextGavetaId, salaId, init);
          NewDrawersRow(st.nextGavetaId, salaId, init, g);
        }
      }
      NewDrawersSnoc(st.nextGavetaId, salaId, nomes);
    }
  }

  /** Three rooms named after a three-room taxonomy, ids drawn from `a` on. */
  function RoomRows(a: nat, tax: seq<(string, seq<string>)>): seq<Sala>
    requires |tax| == 3
  {
    [Sala(a, tax[0].0), Sala(a + 1, tax[1].0), Sala(a + 2, tax[2].0)]
  }

  /** A taxonomy of three rooms with distinct names, each listing distinct drawers. */
  predicate ThreeRooms(tax: seq<(string, seq<string>)>) {
    && |tax| == 3
    && tax[0].0 != tax[1].0 && tax[0].0 != tax[2].0 && tax[1].0 != tax[2].0
    && NoRepeats(tax[0].1) && NoRepeats(tax[1].1) && NoRepeats(tax[2].1)
  }

  lemma SeedTaxonomyThreeRooms()
    ensures ThreeRooms(SeedTaxonomy)
  {
  }

  lemma {:induction false} RoomRowIds(a: nat, tax: seq<(string, seq<string>)>)
    requires ThreeRooms(tax)
    ensures forall k :: 0 <= k < 3 ==> HasSala(RoomRows(a, tax), tax[k].0)
    ensures SalaIdOf(RoomRows(a, tax), tax[0].0) == Some(a)
    ensures SalaIdOf(RoomRows(a, tax), tax[1].0) == Some(a + 1)
    ensures SalaIdOf(RoomRows(a, tax), tax[2].0) == Some(a + 2)
  {
    var r := RoomRows(a, tax);
    assert r[1..][1..] == [Sala(a + 2, tax[2].0)];
    forall k | 0 <= k < 3 ensures HasSala(r, tax[k].0) {
      assert r[k] in r;
    }
  }

  /** The last room of the loop, when none of its drawers exists yet, gains
      exactly its drawers, in order, ids drawn consecutively. */
  lemma {:induction false} SeedDrawersLastFresh(st: Store, tax: seq<(string, seq<string>)>, salaId: nat)
    requires tax != []
    requires forall k :: 0 <= k < |tax| ==> HasSala(st.salas, tax[k].0)
    requires SalaIdOf(st.salas, tax[|tax| - 1].0) == Some(salaId)
    requires forall g :: g in SeedDrawers(st, tax[..|tax| - 1]).gavetas ==> g.salaId != salaId
    requires NoRepeats(tax[|tax| - 1].1)
    ensures SeedDrawers(st, tax).gavetas == SeedDrawers(st, tax[..|tax| - 1]).gavetas
      + NewDrawers(SeedDrawers(st, tax[..|tax| - 1]).nextGavetaId, salaId, tax[|tax| - 1].1)
    ensures SeedDrawers(st, tax).nextGavetaId == SeedDrawers(st, tax[..|tax| - 1]).nextGavetaId + |tax[|tax| - 1].1|
  {
    var prev := SeedDrawers(st, tax[..|tax| - 1]);
    InsertGavetasFresh(prev, salaId, tax[|tax| - 1].1);
  }

  /** `SeedDrawersLastFresh` with the last room written apart. */
  lemma SeedDrawersSnoc(st: Store, init: seq<(string, seq<string>)>, room: (string, seq<string>), salaId: nat, id0: nat)
    requires forall k :: 0 <= k < |init| ==> HasSala(st.salas, init[k].0)
    requires HasSala(st.salas, room.0) && SalaIdOf(st.salas, room.0) == Some(salaId)
    requires forall g :: g in SeedDrawers(st, init).gavetas ==> g.salaId != salaId
    requires NoRepeats(room.1)
    requires SeedDrawers(st, init).nextGavetaId == id0
    ensures SeedDrawers(st, init + [room]).gavetas == SeedDrawers(st, init).gavetas + NewDrawers(id0, salaId, room.1)
  {
    var tax := init + [room];
    assert tax[..|tax| - 1] == init;
    SeedDrawersLastFresh(st, tax, salaId);
  }

  lemma {:induction false} SeedDrawersFirst(rooms: Store, a: nat, tax: seq<(string, seq<string>)>)
    requires ThreeRooms(tax) && rooms.salas == RoomRows(a, tax) && rooms.gavetas == []
    ensures forall k :: 0 <= k < 1 ==> HasSala(rooms.salas, tax[..1][k].0)
    ensures SeedDrawers(rooms, tax[..1]).gavetas == NewDrawers(rooms.nextGavetaId, a, tax[0].1)
    ensures SeedDrawers(rooms, tax[..1]).nextGavetaId == rooms.nextGavetaId + |tax[0].1|
  {
    var t1 := tax[..1];
    assert t1[..0] == [];
    RoomRowIds(a, tax);
    SeedDrawersLastFresh(rooms, t1, a);
  }

  lemma {:induction false} SeedDrawersSecond(rooms: Store, a: nat, tax: seq<(string, seq<string>)>)
    requires ThreeRooms(tax) && rooms.salas == RoomRows(a, tax) && rooms.gavetas == []
    ensures forall k :: 0 <= k < 2 ==> HasSala(rooms.salas, tax[..2][k].0)
    ensures SeedDrawers(rooms, tax[..2]).gavetas
      == NewDrawers(rooms.nextGavetaId, a, tax[0].1)
       + NewDrawers(rooms.nextGavetaId + |tax[0].1|, a + 1, tax[1].1)
    ensures SeedDrawers(rooms, tax[..2]).nextGavetaId == rooms.nextGavetaId + |tax[0].1| + |tax[1].1|
  {
    SeedDrawersFirst(rooms, a, tax);
    var t2 := tax[..2];
    assert t2[..1] == tax[..1];
    RoomRowIds(a, tax);
    forall g | g in SeedDrawers(rooms, t2[..1]).gavetas ensures g.salaId != a + 1 {
      NewDrawersRow(rooms.nextGavetaId, a, tax[0].1, g);
    }
    SeedDrawersLastFresh(rooms, t2, a + 1);
  }

  /** Seeding a three-room taxonomy into `rooms` gives each room its drawers,
      rooms `a`, `a + 1` and `a + 2` in taxonomy order, ids drawn
      consecutively from `b`. */
  ghost predicate SeedsInOrder(rooms: Store, a: nat, b: nat, tax: seq<(string, seq<string>)>)
    requires |tax| == 3 && forall k :: 0 <= k < |tax| ==> HasSala(rooms.salas, tax[k].0)
  {
    SeedDrawers(rooms, tax).gavetas ==
      NewDrawers(b, a, tax[0].1)
      + NewDrawers(b + |tax[0].1|, a + 1, tax[1].1)
      + NewDrawers(b + |tax[0].1| + |tax[1].1|, a + 2, tax[2].1)
  }

  /** Seeding the drawers of a three-room taxonomy into its three freshly
      inserted rooms, no drawer present yet: each room gains exactly its
      drawers, rooms in taxonomy order, ids drawn consecutively. */
  lemma {:induction false} SeedDrawersFromEmpty(rooms: Store, a: nat, b: nat, tax: seq<(string, seq<string>)>)
    requires ThreeRooms(tax) && rooms.salas == RoomRows(a, tax) && rooms.gavetas == []
    requires rooms.nextGavetaId == b
    ensures forall k :: 0 <= k < |tax| ==> HasSala(rooms.salas, tax[k].0)
    ensures SeedsInOrder(rooms, a, b, tax)
  {
    SeedDrawersSecond(rooms, a, tax);
    var t2 := tax[..2];
    var first := SeedDrawers(rooms, t2);
    RoomRowIds(a, tax);
    NotThirdRoom(first.gavetas, b, a, tax[0].1, tax[1].1);
    assert tax == t2 + [tax[2]];
    SeedDrawersSnoc(rooms, t2, tax[2], a + 2, b + |tax[0].1| + |tax[1].1|);
  }

  /** The drawers made for rooms `a` and `a + 1` are not room `a + 2`'s. */
  lemma NotThirdRoom(ds: seq<Gaveta>, b: nat, a: nat, n0: seq<string>, n1: seq<string>)
    requires ds == NewDrawers(b, a, n0) + NewDrawers(b + |n0|, a + 1, n1)
    ensures forall g :: g in ds ==> g.salaId != a + 2
  {
    forall g | g in ds ensures g.salaId != a + 2 {
      if g in NewDrawers(b, a, n0) {
        NewDrawersRow(b, a, n0, g);
      } else {
        NewDrawersRow(b + |n0|, a + 1, n1, g);
      }
    }
  }

  /** The room names of a three-room taxonomy, in order. */
  function RoomNames(tax: seq<(string, seq<string>)>): seq<string>
    requires |tax| == 3
  {
    [tax[0].0, tax[1].0, tax[2].0]
  }

  lemma {:induction false} RoomsFromEmpty(st: Store, tax: seq<(string, seq<string>)>)
    requires ThreeRooms(tax) && st.salas == []
    ensures InsertSalas(st, RoomNames(tax)).salas == RoomRows(st.nextSalaId, tax)
  {
    var a := st.nextSalaId;
    var nomes := RoomNames(tax);
    var r1 := InsertSala(st, tax[0].0);
    assert r1.salas == [Sala(a, tax[0].0)];
    assert !HasSala(r1.salas, tax[1].0);
    var r2 := InsertSala(r1, tax[1].0);
    assert r2.salas == [Sala(a, tax[0].0), Sala(a + 1, tax[1].0)];
    assert !HasSala(r2.salas, tax[2].0) by {
      forall s | s in r2.salas ensures s.nome != tax[2].0 { }
    }
    assert nomes[..1] == [tax[0].0] && nomes[..2] == [tax[0].0, tax[1].0];
    assert InsertSalas(st, nomes[..1]) == r1;
    assert InsertSalas(st, nomes[..2]) == r2;
  }

  /** Seeding a three-room taxonomy into a store without rooms or drawers:
      the three rooms in order, then each room's drawers in order. */
  lemma {:induction false} TaxonomyFromEmpty(st: Store, tax: seq<(string, seq<string>)>)
    requires ThreeRooms(tax) && st.salas == [] && st.gavetas == []
    ensures InsertSalas(st, RoomNames(tax)).salas == RoomRows(st.nextSalaId, tax)
    ensures forall k :: 0 <= k < |tax| ==> HasSala(InsertSalas(st, RoomNames(tax)).salas, tax[k].0)
    ensures SeedsInOrder(InsertSalas(st, RoomNames(tax)), st.nextSalaId, st.nextGavetaId, tax)
  {
    RoomsFromEmpty(st, tax);
    SeedDrawersFromEmpty(InsertSalas(st, RoomNames(tax)), st.nextSalaId, st.nextGavetaId, tax);
  }

  /** On a store with no rooms and no drawers the seed creates exactly "Sala 1",
      "Sala 2" and "Sala 3", in that order, with drawers "Gaveta 1" to
      "Gaveta 3", "Gaveta 1" to "Gaveta 2" and "Gaveta 1" to "Gaveta 4"
      respectively: nine drawers, ids drawn in that order. */
  lemma {:induction false} InitDbFromEmpty(st: Store)
    requires st.salas == [] && st.gavetas == []
    ensures InitDbSpec(st).salas == RoomRows(st.nextSalaId, SeedTaxonomy)
    ensures InitDbSpec(st).gavetas ==
      NewDrawers(st.nextGavetaId, st.nextSalaId, SeedTaxonomy[0].1)
      + NewDrawers(st.nextGavetaId + 3, st.nextSalaId + 1, SeedTaxonomy[1].1)
      + NewDrawers(st.nextGavetaId + 5, st.nextSalaId + 2, SeedTaxonomy[2].1)
    ensures |InitDbSpec(st).gavetas| == 9
  {
    SeedTaxonomyThreeRooms();
    SeedRoomsCoverTaxonomy();
    assert RoomNames(SeedTaxonomy) == SeedRooms;
    TaxonomyFromEmpty(st, SeedTaxonomy);
    assert InitDbSpec(st) == SeedDrawers(InsertSalas(st, SeedRooms), SeedTaxonomy);
    assert |SeedTaxonomy[0].1| == 3 && |SeedTaxonomy[1].1| == 2;
  }
}

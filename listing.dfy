/** The hierarchy `get_salas` answers with: the rows of its grouped LEFT JOIN
    query, the dictionary its loop folds them into, and what that dictionary
    says about the tables. */
module Listing {
  import opened Wrappers
  import opened Registry

  /** One row of the grouped query: the room name, the drawer name (`None` for
      the NULL a room without drawers gets from the LEFT JOIN) and the names of
      the folders in that drawer. */
  datatype Row = Row(sala: string, gaveta: Option<string>, pastas: seq<string>)

  /** room name -> drawer name -> folder names; the `None` drawer key is the
      NULL group of a room without drawers. */
  type Hierarchy = map<string, map<Option<string>, seq<string>>>

  /** The aggregate `COALESCE(json_agg(p.nome_aluno) FILTER (...), '[]')` of one
      drawer: a name is listed exactly when some folder of that drawer holds it,
      and an empty drawer gets the empty list. */
  function FolderNames(pastas: seq<Pasta>, gavetaId: nat): (r: seq<string>)
    ensures |r| <= |pastas|
    ensures forall n :: n in r <==> exists p :: p in pastas && p.gavetaId == gavetaId && p.nomeAluno == n
    decreases |pastas|
  {
    if pastas == [] then []
    else
      var init := pastas[..|pastas| - 1];
      var p := pastas[|pastas| - 1];
      assert pastas == init + [p];
      FolderNames(init, gavetaId) + (if p.gavetaId == gavetaId then [p.nomeAluno] else [])
  }

  /** The drawers the LEFT JOIN pairs with the room whose id is `salaId`. */
  function DrawersOf(gavetas: seq<Gaveta>, salaId: nat): (r: seq<Gaveta>)
    ensures forall g :: g in r <==> g in gavetas && g.salaId == salaId
    decreases |gavetas|
  {
    if gavetas == [] then []
    else
      var init := gavetas[..|gavetas| - 1];
      var g := gavetas[|gavetas| - 1];
      assert gavetas == init + [g];
      DrawersOf(init, salaId) + (if g.salaId == salaId then [g] else [])
  }

  /** `row` is a group the query forms for room `s`: one per drawer of the room,
      carrying that drawer's folders, or the single NULL group with no folders
      when the room has no drawer. */
  ghost predicate RoomRow(st: Store, s: Sala, row: Row) {
    && row.sala == s.nome
    && (|| (row.gaveta == None && row.pastas == [] && forall g :: g in st.gavetas ==> g.salaId != s.id)
        || exists g :: (g in st.gavetas && g.salaId == s.id && row.gaveta == Some(g.nome)
                        && row.pastas == FolderNames(st.pastas, g.id)))
  }

  /** The groups of one room. */
  function RoomRows(st: Store, s: Sala): (r: seq<Row>)
    ensures forall row :: row in r <==> RoomRow(st, s, row)
  {
    var ds := DrawersOf(st.gavetas, s.id);
    if ds == [] then [Row(s.nome, None, [])]
    else
      var r := seq(|ds|, i requires 0 <= i < |ds| => Row(s.nome, Some(ds[i].nome), FolderNames(st.pastas, ds[i].id)));
      assert ds[0] in ds;
      assert forall row :: RoomRow(st, s, row) ==> row in r by {
        forall row | RoomRow(st, s, row) ensures row in r {
          assert row.gaveta != None;
          var g :| g in st.gavetas && g.salaId == s.id && row.gaveta == Some(g.nome)
                   && row.pastas == FolderNames(st.pastas, g.id);
          var i :| 0 <= i < |ds| && ds[i] == g;
          assert r[i] == row;
        }
      }
      assert forall i :: 0 <= i < |r| ==> RoomRow(st, s, r[i]) by {
        forall i | 0 <= i < |r| ensures RoomRow(st, s, r[i]) {
          assert ds[i] in ds;
        }
      }
      r
  }

  /** The groups of the rooms `salas`, room by room. */
  function RowsOf(st: Store, salas: seq<Sala>): (r: seq<Row>)
    ensures forall row :: row in r <==> exists s :: s in salas && RoomRow(st, s, row)
    decreases |salas|
  {
    if salas == [] then []
    else
      var init := salas[..|salas| - 1];
      var s := salas[|salas| - 1];
      assert salas == init + [s];
      RowsOf(st, init) + RoomRows(st, s)
  }

  /** Every row the `get_salas` query returns. */
  function QueryRows(st: Store): (r: seq<Row>)
    ensures forall row :: row in r <==> exists s :: s in st.salas && RoomRow(st, s, row)
  {
    RowsOf(st, st.salas)
  }

  /** The loop over the rows: the room's dictionary is created on its first
      row, then the drawer's entry is set to the row's folder list. */
  function Fold(rows: seq<Row>): (h: Hierarchy)
    ensures rows != [] ==> rows[|rows| - 1].sala in h && rows[|rows| - 1].gaveta in h[rows[|rows| - 1].sala]
    decreases |rows|
  {
    if rows == [] then map[]
    else
      var m := Fold(rows[..|rows| - 1]);
      var row := rows[|rows| - 1];
      var inner := if row.sala in m then m[row.sala] else map[];
      m[row.sala := inner[row.gaveta := row.pastas]]
  }

  /** One more row is one more step of the loop. */
  lemma FoldSnoc(rows: seq<Row>, row: Row)
    ensures Fold(rows + [row])
         == (var m := Fold(rows);
             var inner := if row.sala in m then m[row.sala] else map[];
             m[row.sala := inner[row.gaveta := row.pastas]])
  {
    assert (rows + [row])[..|rows|] == rows;
  }

  /** No two rows share a (room, drawer) pair with different folder lists. */
  ghost predicate Functional(rows: seq<Row>) {
    forall r1, r2 :: r1 in rows && r2 in rows && r1.sala == r2.sala && r1.gaveta == r2.gaveta ==> r1 == r2
  }

  /** Every row's pair is a key of the folded dictionary. */
  lemma {:induction false} FoldHasRow(rows: seq<Row>, row: Row)
    requires row in rows
    ensures row.sala in Fold(rows) && row.gaveta in Fold(rows)[row.sala]
    decreases |rows|
  {
    var init := rows[..|rows| - 1];
    var last := rows[|rows| - 1];
    assert rows == init + [last];
    if row != last {
      FoldHasRow(init, row);
    }
  }

  /** The folded dictionary has a room exactly for the rooms of the rows. */
  lemma {:induction false} FoldRooms(rows: seq<Row>)
    ensures forall n :: n in Fold(rows) <==> exists row :: row in rows && row.sala == n
    decreases |rows|
  {
    if rows != [] {
      var init := rows[..|rows| - 1];
      var last := rows[|rows| - 1];
      assert rows == init + [last];
      FoldRooms(init);
      forall n | n in Fold(rows) ensures exists row :: row in rows && row.sala == n {
        if n != last.sala {
          assert n in Fold(init);
          var row :| row in init && row.sala == n;
          assert row in rows;
        }
      }
    }
  }

  /** Under a room, the folded dictionary has a drawer key exactly for the
      pairs of the rows. */
  lemma {:induction false} FoldKeys(rows: seq<Row>, n: string, k: Option<string>)
    requires n in Fold(rows) && k in Fold(rows)[n]
    ensures exists row :: row in rows && row.sala == n && row.gaveta == k
    decreases |rows|
  {
    var init := rows[..|rows| - 1];
    var last := rows[|rows| - 1];
    assert rows == init + [last];
    if !(n == last.sala && k == last.gaveta) {
      assert n in Fold(init) && k in Fold(init)[n];
      FoldKeys(init, n, k);
      var row :| row in init && row.sala == n && row.gaveta == k;
      assert row in rows;
    }
  }

  /** When pairs are not repeated, each row's folder list is under its pair. */
  lemma {:induction false} FoldValues(rows: seq<Row>, row: Row)
    requires Functional(rows) && row in rows
    ensures row.sala in Fold(rows) && row.gaveta in Fold(rows)[row.sala]
    ensures Fold(rows)[row.sala][row.gaveta] == row.pastas
    decreases |rows|
  {
    var init := rows[..|rows| - 1];
    var last := rows[|rows| - 1];
    assert rows == init + [last];
    FoldHasRow(rows, row);
    if row.sala == last.sala && row.gaveta == last.gaveta {
      assert row == last;
    } else {
      assert row in init;
      assert Functional(init);
      FoldValues(init, row);
    }
  }

  /** A room with a drawer key `k` in the listing: the NULL key of a room
      without drawers, or the name of one of its drawers. */
  ghost predicate KeyOf(st: Store, s: Sala, k: Option<string>) {
    || (k == None && forall g :: g in st.gavetas ==> g.salaId != s.id)
    || exists g :: g in st.gavetas && g.salaId == s.id && k == Some(g.nome)
  }

  /** What the `salas` part of the `get_salas` answer promises about the tables:
      every room is a key and nothing else is; under a room, every drawer of the
      room is a key (drawers without folders too), with the folders that
      reference it, counted with multiplicity and in no promised order; a room
      without drawers has the single NULL key with no folders. */
  ghost predicate Describes(st: Store, h: Hierarchy) {
    && (forall n :: n in h <==> HasSala(st.salas, n))
    && (forall s :: s in st.salas ==> s.nome in h && RoomDescribed(st, s, h[s.nome]))
  }

  ghost predicate RoomDescribed(st: Store, s: Sala, d: map<Option<string>, seq<string>>) {
    && (forall k :: k in d <==> KeyOf(st, s, k))
    && (forall g :: g in st.gavetas && g.salaId == s.id ==>
          Some(g.nome) in d && multiset(d[Some(g.nome)]) == multiset(FolderNames(st.pastas, g.id)))
    && (None in d ==> d[None] == [])
  }

  lemma RoomById(salas: seq<Sala>, s1: Sala, s2: Sala)
    requires RoomsUnique(salas) && s1 in salas && s2 in salas && s1.id == s2.id
    ensures s1 == s2
  {
    var i :| 0 <= i < |salas| && salas[i] == s1;
    var j :| 0 <= j < |salas| && salas[j] == s2;
  }

  /** Under the constraints the query never forms two groups for one pair. */
  lemma QueryFunctional(st: Store)
    requires Valid(st)
    ensures Functional(QueryRows(st))
  {
    var rows := QueryRows(st);
    forall r1, r2 | r1 in rows && r2 in rows && r1.sala == r2.sala && r1.gaveta == r2.gaveta
      ensures r1 == r2
    {
      var s1 :| s1 in st.salas && RoomRow(st, s1, r1);
      var s2 :| s2 in st.salas && RoomRow(st, s2, r2);
      RoomByName(st.salas, s1, s2);
      if r1.gaveta.Some? {
        var g1 :| g1 in st.gavetas && g1.salaId == s1.id && r1.gaveta == Some(g1.nome)
                  && r1.pastas == FolderNames(st.pastas, g1.id);
        var g2 :| g2 in st.gavetas && g2.salaId == s2.id && r2.gaveta == Some(g2.nome)
                  && r2.pastas == FolderNames(st.pastas, g2.id);
        DrawerByKey(st.gavetas, g1, g2);
      } else if r2.gaveta.Some? {
        assert false;
      } else {
        if exists g :: g in st.gavetas && g.salaId == s1.id && r1.gaveta == Some(g.nome) {
          assert false;
        }
        if exists g :: g in st.gavetas && g.salaId == s2.id && r2.gaveta == Some(g.nome) {
          assert false;
        }
      }
    }
  }

  /** The dictionary `get_salas` builds describes the tables it read. */
  lemma QueryDescribes(st: Store)
    requires Valid(st)
    ensures Describes(st, Fold(QueryRows(st)))
  {
    var rows := QueryRows(st);
    var h := Fold(rows);
    QueryFunctional(st);
    forall s | s in st.salas ensures s.nome in h && RoomDescribed(st, s, h[s.nome]) {
      var row := RoomWitness(st, s);
      FoldHasRow(rows, row);
      QueryRoom(st, s);
    }
    assert forall n :: n in h <==> HasSala(st.salas, n) by {
      FoldRooms(rows);
      forall n ensures n in h <==> HasSala(st.salas, n) {
        if n in h {
          var r :| r in rows && r.sala == n;
          var s :| s in st.salas && RoomRow(st, s, r);
        }
        if HasSala(st.salas, n) {
          var s :| s in st.salas && s.nome == n;
          var row := RoomWitness(st, s);
          FoldHasRow(rows, row);
        }
      }
    }
  }

  /** The entry of one room in the dictionary `get_salas` builds. */
  lemma QueryRoom(st: Store, s: Sala)
    requires Valid(st) && s in st.salas && Functional(QueryRows(st))
    requires s.nome in Fold(QueryRows(st))
    ensures RoomDescribed(st, s, Fold(QueryRows(st))[s.nome])
  {
    var d := Fold(QueryRows(st))[s.nome];
    forall k ensures k in d <==> KeyOf(st, s, k) {
      QueryRoomKey(st, s, k);
    }
    forall g | g in st.gavetas && g.salaId == s.id
      ensures Some(g.nome) in d && multiset(d[Some(g.nome)]) == multiset(FolderNames(st.pastas, g.id))
    {
      QueryRoomDrawer(st, s, g);
    }
    if None in d {
      QueryRoomNull(st, s);
    }
  }

  lemma QueryRoomKey(st: Store, s: Sala, k: Option<string>)
    requires Valid(st) && s in st.salas
    requires s.nome in Fold(QueryRows(st))
    ensures k in Fold(QueryRows(st))[s.nome] <==> KeyOf(st, s, k)
  {
    if k in Fold(QueryRows(st))[s.nome] {
      QueryKeyIsDrawer(st, s, k);
    }
    if KeyOf(st, s, k) {
      QueryDrawerIsKey(st, s, k);
    }
  }

  lemma QueryKeyIsDrawer(st: Store, s: Sala, k: Option<string>)
    requires Valid(st) && s in st.salas
    requires s.nome in Fold(QueryRows(st)) && k in Fold(QueryRows(st))[s.nome]
    ensures KeyOf(st, s, k)
  {
    var rows := QueryRows(st);
    FoldKeys(rows, s.nome, k);
    var r :| r in rows && r.sala == s.nome && r.gaveta == k;
    var s' :| s' in st.salas && RoomRow(st, s', r);
    RoomByName(st.salas, s, s');
  }

  lemma QueryDrawerIsKey(st: Store, s: Sala, k: Option<string>)
    requires s in st.salas && KeyOf(st, s, k)
    ensures s.nome in Fold(QueryRows(st)) && k in Fold(QueryRows(st))[s.nome]
  {
    var r;
    if k == None && forall g :: g in st.gavetas ==> g.salaId != s.id {
      r := Row(s.nome, None, []);
    } else {
      var g :| g in st.gavetas && g.salaId == s.id && k == Some(g.nome);
      r := Row(s.nome, k, FolderNames(st.pastas, g.id));
    }
    assert RoomRow(st, s, r);
    FoldHasRow(QueryRows(st), r);
  }

  lemma QueryRoomDrawer(st: Store, s: Sala, g: Gaveta)
    requires Valid(st) && s in st.salas && Functional(QueryRows(st))
    requires g in st.gavetas && g.salaId == s.id
    ensures s.nome in Fold(QueryRows(st)) && Some(g.nome) in Fold(QueryRows(st))[s.nome]
    ensures Fold(QueryRows(st))[s.nome][Some(g.nome)] == FolderNames(st.pastas, g.id)
  {
    var r := Row(s.nome, Some(g.nome), FolderNames(st.pastas, g.id));
    assert RoomRow(st, s, r);
    FoldValues(QueryRows(st), r);
  }

  lemma QueryRoomNull(st: Store, s: Sala)
    requires Valid(st) && s in st.salas && Functional(QueryRows(st))
    requires s.nome in Fold(QueryRows(st)) && None in Fold(QueryRows(st))[s.nome]
    ensures Fold(QueryRows(st))[s.nome][None] == []
  {
    var rows := QueryRows(st);
    FoldKeys(rows, s.nome, None);
    var r :| r in rows && r.sala == s.nome && r.gaveta == None;
    var s' :| s' in st.salas && RoomRow(st, s', r);
    if exists g :: g in st.gavetas && g.salaId == s'.id && r.gaveta == Some(g.nome) {
      assert false;
    }
    FoldValues(rows, r);
  }

  /** Some group of room `s`. */
  lemma RoomWitness(st: Store, s: Sala) returns (row: Row)
    ensures RoomRow(st, s, row)
  {
    if forall g :: g in st.gavetas ==> g.salaId != s.id {
      row := Row(s.nome, None, []);
    } else {
      var g :| g in st.gavetas && g.salaId == s.id;
      row := Row(s.nome, Some(g.nome), FolderNames(st.pastas, g.id));
    }
  }

  /** One more folder in `pastas` lists its name under its own drawer only. */
  lemma FolderNamesAppend(pastas: seq<Pasta>, p: Pasta, gavetaId: nat)
    ensures FolderNames(pastas + [p], gavetaId)
         == FolderNames(pastas, gavetaId) + (if p.gavetaId == gavetaId then [p.nomeAluno] else [])
  {
    assert (pastas + [p])[..|pastas|] == pastas;
  }

  /** The positions of the folder rows that reference drawer `gavetaId`. */
  ghost function FolderRows(pastas: seq<Pasta>, gavetaId: nat): set<int> {
    set i | 0 <= i < |pastas| && pastas[i].gavetaId == gavetaId
  }

  /** `json_agg` keeps one entry per folder row: a drawer's list is as long as
      the number of folders referencing it, two folders with the same name
      giving two entries. */
  lemma {:induction false} FolderNamesCount(pastas: seq<Pasta>, gavetaId: nat)
    ensures |FolderNames(pastas, gavetaId)| == |FolderRows(pastas, gavetaId)|
    decreases |pastas|
  {
    if pastas != [] {
      var init := pastas[..|pastas| - 1];
      var p := pastas[|pastas| - 1];
      FolderNamesCount(init, gavetaId);
      assert forall i :: 0 <= i < |init| ==> pastas[i] == init[i];
      if p.gavetaId == gavetaId {
        assert FolderRows(pastas, gavetaId) == FolderRows(init, gavetaId) + {|pastas| - 1};
      } else {
        assert FolderRows(pastas, gavetaId) == FolderRows(init, gavetaId);
      }
    }
  }

  /** What a confirm does to the listing: the same rooms and the same drawer keys
      under each room; the named drawer, when the confirm inserts, lists one
      more folder with the name as its column stores it; every other list keeps
      its contents. */
  lemma ConfirmHierarchy(st: Store, sala: string, gaveta: string, nome: string, h: Hierarchy, h': Hierarchy)
    requires Valid(st) && Describes(st, h) && Describes(ConfirmSpec(st, sala, gaveta, nome), h')
    ensures h'.Keys == h.Keys
    ensures forall n :: n in h ==> h'[n].Keys == h[n].Keys
    ensures forall n, k :: n in h && k in h[n] ==>
      multiset(h'[n][k]) == multiset(h[n][k])
        + (if n == sala && k == Some(gaveta) && Adds(st, sala, gaveta, nome) then multiset{StoredName(nome).value} else multiset{})
  {
    ConfirmShape(st, sala, gaveta, nome, h, h');
    forall n, k | n in h && k in h[n]
      ensures multiset(h'[n][k]) == multiset(h[n][k])
        + (if n == sala && k == Some(gaveta) && Adds(st, sala, gaveta, nome) then multiset{StoredName(nome).value} else multiset{})
    {
      ConfirmEntry(st, sala, gaveta, nome, h, h', n, k);
    }
  }

  /** A confirm keeps the rooms and the drawer keys of the listing. */
  lemma ConfirmShape(st: Store, sala: string, gaveta: string, nome: string, h: Hierarchy, h': Hierarchy)
    requires Valid(st) && Describes(st, h) && Describes(ConfirmSpec(st, sala, gaveta, nome), h')
    ensures h'.Keys == h.Keys
    ensures forall n :: n in h ==> h'[n].Keys == h[n].Keys
  {
    ConfirmValid(st, sala, gaveta, nome);
    assert h'.Keys == h.Keys by {
      forall n ensures n in h' <==> n in h { }
    }
    forall n | n in h ensures h'[n].Keys == h[n].Keys {
      ConfirmRoomKeys(st, sala, gaveta, nome, h, h', n);
    }
  }

  lemma ConfirmRoomKeys(st: Store, sala: string, gaveta: string, nome: string, h: Hierarchy, h': Hierarchy, n: string)
    requires Valid(st) && Describes(st, h) && Describes(ConfirmSpec(st, sala, gaveta, nome), h')
    requires n in h
    ensures n in h' && h'[n].Keys == h[n].Keys
  {
    var st' := ConfirmSpec(st, sala, gaveta, nome);
    ConfirmValid(st, sala, gaveta, nome);
    var s :| s in st.salas && s.nome == n;
    assert s in st'.salas;
    SameDrawerKeys(st, st', s, h[n], h'[n]);
  }

  /** Two tables with the same drawers give a room the same drawer keys. */
  lemma SameDrawerKeys(st: Store, st': Store, s: Sala, d: map<Option<string>, seq<string>>, d': map<Option<string>, seq<string>>)
    requires st'.gavetas == st.gavetas && RoomDescribed(st, s, d) && RoomDescribed(st', s, d')
    ensures d'.Keys == d.Keys
  {
    forall k ensures k in d' <==> k in d {
      assert KeyOf(st', s, k) <==> KeyOf(st, s, k);
    }
  }

  lemma ConfirmEntry(st: Store, sala: string, gaveta: string, nome: string, h: Hierarchy, h': Hierarchy,
                     n: string, k: Option<string>)
    requires Valid(st) && Describes(st, h) && Describes(ConfirmSpec(st, sala, gaveta, nome), h')
    requires n in h && k in h[n]
    ensures n in h' && k in h'[n]
    ensures multiset(h'[n][k]) == multiset(h[n][k])
        + (if n == sala && k == Some(gaveta) && Adds(st, sala, gaveta, nome) then multiset{StoredName(nome).value} else multiset{})
  {
    var st' := ConfirmSpec(st, sala, gaveta, nome);
    ConfirmValid(st, sala, gaveta, nome);
    ConfirmRoomKeys(st, sala, gaveta, nome, h, h', n);
    var s :| s in st.salas && s.nome == n;
    assert RoomDescribed(st, s, h[n]) && RoomDescribed(st', s, h'[n]);
    if k != None {
      var g :| g in st.gavetas && g.salaId == s.id && k == Some(g.nome);
      ConfirmDrawer(st, sala, gaveta, nome, s, g);
    } else {
      assert h[n][k] == [] && h'[n][k] == [];
    }
  }

  /** The folders of drawer `g` (of room `s`) after a confirm. */
  lemma ConfirmDrawer(st: Store, sala: string, gaveta: string, nome: string, s: Sala, g: Gaveta)
    requires Valid(st) && s in st.salas && g in st.gavetas && g.salaId == s.id
    ensures FolderNames(ConfirmSpec(st, sala, gaveta, nome).pastas, g.id)
         == FolderNames(st.pastas, g.id)
            + (if s.nome == sala && g.nome == gaveta && Adds(st, sala, gaveta, nome) then [StoredName(nome).value] else [])
  {
    if Adds(st, sala, gaveta, nome) {
      var id := FindDrawer(st, sala, gaveta).value;
      var g0 :| Locates(st, sala, gaveta, g0) && g0.id == id;
      FolderNamesAppend(st.pastas, Pasta(st.nextPastaId, id, StoredName(nome).value), g.id);
      if id == g.id {
        DrawerById(st.gavetas, g0, g);
        RoomById(st.salas, s, Sala(g.salaId, sala));
      } else if s.nome == sala && g.nome == gaveta {
        assert Locates(st, sala, gaveta, g);
        LocatesUnique(st, sala, gaveta, g0, g);
      }
    }
  }
}

/** The registry database: the rows of `salas`, `gavetas` and `pastas`, the
    constraints the schema and the application keep on them, and each SQL
    statement of the core as a function from one table state to the next. */
module Registry {
  import opened Wrappers

  /** A row of `salas` (rooms). */
  datatype Sala = Sala(id: nat, nome: string)

  /** A row of `gavetas` (drawers): its room, its number and its display name. */
  datatype Gaveta = Gaveta(id: nat, salaId: nat, numero: string, nome: string)

  /** A row of `pastas` (student folders). */
  datatype Pasta = Pasta(id: nat, gavetaId: nat, nomeAluno: string)

  /** The three tables, rows in insertion order, with the next value each
      table's SERIAL sequence hands out. */
  datatype Store = Store(salas: seq<Sala>, gavetas: seq<Gaveta>, pastas: seq<Pasta>,
                         nextSalaId: nat, nextGavetaId: nat, nextPastaId: nat)

  function RoomIds(salas: seq<Sala>): set<nat> {
    set s | s in salas :: s.id
  }

  function DrawerIds(gavetas: seq<Gaveta>): set<nat> {
    set g | g in gavetas :: g.id
  }

  /** The primary key of `salas` and `nome ... UNIQUE`. */
  ghost predicate RoomsUnique(salas: seq<Sala>) {
    forall i, j :: 0 <= i < j < |salas| ==>
      salas[i].id != salas[j].id && salas[i].nome != salas[j].nome
  }

  /** The primary key of `gavetas` and `UNIQUE(sala_id, numero)`. */
  ghost predicate DrawersUnique(gavetas: seq<Gaveta>) {
    forall i, j :: 0 <= i < j < |gavetas| ==>
      gavetas[i].id != gavetas[j].id
      && (gavetas[i].salaId != gavetas[j].salaId || gavetas[i].numero != gavetas[j].numero)
  }

  /** The primary key of `pastas`. */
  ghost predicate FoldersUnique(pastas: seq<Pasta>) {
    forall i, j :: 0 <= i < j < |pastas| ==> pastas[i].id != pastas[j].id
  }

  /** What holds of the tables between statements: the keys and UNIQUE
      constraints, both foreign keys, every id below its sequence's next value,
      and every drawer's number equal to its name (the one writer of `gavetas`,
      the seed, inserts them equal). */
  ghost predicate Valid(st: Store) {
    && RoomsUnique(st.salas)
    && DrawersUnique(st.gavetas)
    && FoldersUnique(st.pastas)
    && (forall s :: s in st.salas ==> s.id < st.nextSalaId)
    && (forall g :: g in st.gavetas ==>
          g.id < st.nextGavetaId && g.salaId in RoomIds(st.salas) && g.numero == g.nome)
    && (forall p :: p in st.pastas ==> p.id < st.nextPastaId && p.gavetaId in DrawerIds(st.gavetas))
  }

  lemma RoomByName(salas: seq<Sala>, s1: Sala, s2: Sala)
    requires RoomsUnique(salas) && s1 in salas && s2 in salas && s1.nome == s2.nome
    ensures s1 == s2
  {
    var i :| 0 <= i < |salas| && salas[i] == s1;
    var j :| 0 <= j < |salas| && salas[j] == s2;
  }

  lemma DrawerByKey(gavetas: seq<Gaveta>, g1: Gaveta, g2: Gaveta)
    requires DrawersUnique(gavetas) && g1 in gavetas && g2 in gavetas
    requires g1.salaId == g2.salaId && g1.numero == g2.numero
    ensures g1 == g2
  {
    var i :| 0 <= i < |gavetas| && gavetas[i] == g1;
    var j :| 0 <= j < |gavetas| && gavetas[j] == g2;
  }

  lemma DrawerById(gavetas: seq<Gaveta>, g1: Gaveta, g2: Gaveta)
    requires DrawersUnique(gavetas) && g1 in gavetas && g2 in gavetas && g1.id == g2.id
    ensures g1 == g2
  {
    var i :| 0 <= i < |gavetas| && gavetas[i] == g1;
    var j :| 0 <= j < |gavetas| && gavetas[j] == g2;
  }

  predicate HasSala(salas: seq<Sala>, nome: string) {
    exists s :: s in salas && s.nome == nome
  }

  predicate HasGaveta(gavetas: seq<Gaveta>, salaId: nat, numero: string) {
    exists g :: g in gavetas && g.salaId == salaId && g.numero == numero
  }

  /** `INSERT INTO salas (nome) VALUES (nome) ON CONFLICT (nome) DO NOTHING`.
      The sequence value is drawn whether or not the row is kept. */
  function InsertSala(st: Store, nome: string): (r: Store)
  {
    st.(salas := if HasSala(st.salas, nome) then st.salas else st.salas + [Sala(st.nextSalaId, nome)],
        nextSalaId := st.nextSalaId + 1)
  }

  /** `INSERT INTO gavetas (sala_id, numero, nome) VALUES (...)
      ON CONFLICT (sala_id, numero) DO NOTHING`; the foreign key demands that
      `salaId` names a room. */
  function InsertGaveta(st: Store, salaId: nat, numero: string, nome: string): (r: Store)
    requires salaId in RoomIds(st.salas)
  {
    st.(gavetas := if HasGaveta(st.gavetas, salaId, numero) then st.gavetas
                   else st.gavetas + [Gaveta(st.nextGavetaId, salaId, numero, nome)],
        nextGavetaId := st.nextGavetaId + 1)
  }

  /** After the room insert the room exists. A name already present leaves the
      rooms as they were; otherwise one row is appended. A sequence value is
      drawn either way, and the other tables are untouched. */
  lemma InsertSalaAdds(st: Store, nome: string)
    ensures HasSala(InsertSala(st, nome).salas, nome)
    ensures HasSala(st.salas, nome) ==> InsertSala(st, nome).salas == st.salas
    ensures st.salas <= InsertSala(st, nome).salas && |InsertSala(st, nome).salas| <= |st.salas| + 1
    ensures InsertSala(st, nome).gavetas == st.gavetas && InsertSala(st, nome).pastas == st.pastas
    ensures InsertSala(st, nome).nextSalaId == st.nextSalaId + 1
  {
    if !HasSala(st.salas, nome) {
      assert Sala(st.nextSalaId, nome) in InsertSala(st, nome).salas;
    }
  }

  /** After the drawer insert the room has a drawer with that number. A pair
      already present leaves the drawers as they were; otherwise one row is
      appended. A sequence value is drawn either way, and the other tables are
      untouched. */
  lemma InsertGavetaAdds(st: Store, salaId: nat, numero: string, nome: string)
    requires salaId in RoomIds(st.salas)
    ensures HasGaveta(InsertGaveta(st, salaId, numero, nome).gavetas, salaId, numero)
    ensures HasGaveta(st.gavetas, salaId, numero) ==> InsertGaveta(st, salaId, numero, nome).gavetas == st.gavetas
    ensures st.gavetas <= InsertGaveta(st, salaId, numero, nome).gavetas
    ensures |InsertGaveta(st, salaId, numero, nome).gavetas| <= |st.gavetas| + 1
    ensures InsertGaveta(st, salaId, numero, nome).salas == st.salas
    ensures InsertGaveta(st, salaId, numero, nome).pastas == st.pastas
    ensures InsertGaveta(st, salaId, numero, nome).nextGavetaId == st.nextGavetaId + 1
  {
    if !HasGaveta(st.gavetas, salaId, numero) {
      assert Gaveta(st.nextGavetaId, salaId, numero, nome) in InsertGaveta(st, salaId, numero, nome).gavetas;
    }
  }

  /** `INSERT INTO pastas (gaveta_id, nome_aluno) VALUES (...)`. */
  function AppendFolder(st: Store, gavetaId: nat, nome: string): (r: Store)
    ensures st.pastas <= r.pastas && |r.pastas| == |st.pastas| + 1
    ensures r.pastas[|st.pastas|] == Pasta(st.nextPastaId, gavetaId, nome)
    ensures r.salas == st.salas && r.gavetas == st.gavetas
    ensures r.nextPastaId == st.nextPastaId + 1
  {
    st.(pastas := st.pastas + [Pasta(st.nextPastaId, gavetaId, nome)],
        nextPastaId := st.nextPastaId + 1)
  }

  /** `SELECT id FROM salas WHERE nome = %s` followed by `fetchone()`. */
  function SalaIdOf(salas: seq<Sala>, nome: string): (r: Option<nat>)
    ensures r.Some? <==> HasSala(salas, nome)
    ensures r.Some? ==> Sala(r.value, nome) in salas
    decreases |salas|
  {
    if salas == [] then None
    else if salas[0].nome == nome then Some(salas[0].id)
    else SalaIdOf(salas[1..], nome)
  }

  /** Drawer `g` is one that the confirm query's join selects for the pair
      (`sala`, `gaveta`): its name is `gaveta` and its room is named `sala`. */
  ghost predicate Locates(st: Store, sala: string, gaveta: string, g: Gaveta) {
    g in st.gavetas && g.nome == gaveta && Sala(g.salaId, sala) in st.salas
  }

  /** `SELECT g.id FROM gavetas g JOIN salas s ON g.sala_id = s.id
      WHERE s.nome = sala AND g.nome = gaveta` followed by `fetchone()`:
      some drawer id when the pair resolves, nothing exactly when it does not. */
  function FindDrawer(st: Store, sala: string, gaveta: string): (r: Option<nat>)
    ensures r.Some? <==> exists g :: Locates(st, sala, gaveta, g)
    ensures r.Some? ==> exists g :: Locates(st, sala, gaveta, g) && g.id == r.value
    decreases |st.gavetas|
  {
    if st.gavetas == [] then None
    else
      var g := st.gavetas[0];
      if g.nome == gaveta && Sala(g.salaId, sala) in st.salas then
        assert Locates(st, sala, gaveta, g);
        Some(g.id)
      else
        var rest := st.(gavetas := st.gavetas[1..]);
        assert forall h :: Locates(st, sala, gaveta, h) <==> Locates(rest, sala, gaveta, h) by {
          assert st.gavetas == [g] + rest.gavetas;
        }
        FindDrawer(rest, sala, gaveta)
  }

  /** Under the constraints a pair locates at most one drawer. */
  lemma LocatesUnique(st: Store, sala: string, gaveta: string, g1: Gaveta, g2: Gaveta)
    requires Valid(st) && Locates(st, sala, gaveta, g1) && Locates(st, sala, gaveta, g2)
    ensures g1 == g2
  {
    RoomByName(st.salas, Sala(g1.salaId, sala), Sala(g2.salaId, sala));
    DrawerByKey(st.gavetas, g1, g2);
  }

  /** `nome_aluno VARCHAR(200)`: the most characters a folder name may have. */
  const NomeAlunoMax: nat := 200

  /** The NUL character, which the database driver refuses to interpolate into
      a statement. */
  const Nul: char := '\0'

  /** Every character of `s` is the space U+0020. */
  predicate AllBlank(s: string) {
    forall i :: 0 <= i < |s| ==> s[i] == ' '
  }

  /** The value the VARCHAR(200) column takes for `nome`: the name itself when
      it fits; its first 200 characters when everything past them is spaces
      (SQL's rule for storing into a length-limited character column); no value
      otherwise, the insert failing with a length error. */
  function StoredName(nome: string): (r: Option<string>)
    ensures r.Some? <==> |nome| <= NomeAlunoMax || AllBlank(nome[NomeAlunoMax..])
    ensures r.Some? ==> |r.value| <= NomeAlunoMax && r.value <= nome && AllBlank(nome[|r.value|..])
    ensures |nome| <= NomeAlunoMax ==> r == Some(nome)
    ensures r.Some? && |nome| > NomeAlunoMax ==> r.value == nome[..NomeAlunoMax]
  {
    if |nome| <= NomeAlunoMax then Some(nome)
    else if AllBlank(nome[NomeAlunoMax..]) then Some(nome[..NomeAlunoMax])
    else None
  }

  /** The confirm transaction inserts a folder: the location's names hold no
      NUL (the lookup is sent), the pair resolves, and the name holds no NUL
      and has a value in its column (the insert is sent and stored). */
  predicate Adds(st: Store, sala: string, gaveta: string, nome: string) {
    && Nul !in sala && Nul !in gaveta
    && FindDrawer(st, sala, gaveta).Some?
    && Nul !in nome && StoredName(nome).Some?
  }

  /** The confirm transaction on the tables: one folder, holding the column's
      value of the name, under the drawer the pair resolves to; no change at
      all when any statement fails (a NUL refused by the driver, no row, a name
      too long for its column; the last is rejected before any row or sequence
      value is produced, the name being a constant of the statement). */
  function ConfirmSpec(st: Store, sala: string, gaveta: string, nome: string): (r: Store)
    ensures r.salas == st.salas && r.gavetas == st.gavetas
    ensures r.pastas != st.pastas <==> Adds(st, sala, gaveta, nome)
    ensures st.pastas <= r.pastas && |r.pastas| <= |st.pastas| + 1
  {
    if Adds(st, sala, gaveta, nome) then
      AppendFolder(st, FindDrawer(st, sala, gaveta).value, StoredName(nome).value)
    else st
  }

  lemma InsertSalaValid(st: Store, nome: string)
    requires Valid(st)
    ensures Valid(InsertSala(st, nome))
  {
    var r := InsertSala(st, nome);
    assert RoomIds(st.salas) <= RoomIds(r.salas);
  }

  lemma InsertGavetaValid(st: Store, salaId: nat, numero: string, nome: string)
    requires Valid(st) && salaId in RoomIds(st.salas) && numero == nome
    ensures Valid(InsertGaveta(st, salaId, numero, nome))
  {
    var r := InsertGaveta(st, salaId, numero, nome);
    assert DrawerIds(st.gavetas) <= DrawerIds(r.gavetas);
  }

  lemma AppendFolderValid(st: Store, gavetaId: nat, nome: string)
    requires Valid(st) && gavetaId in DrawerIds(st.gavetas)
    ensures Valid(AppendFolder(st, gavetaId, nome))
  {
  }

  /** Confirm keeps every constraint, and touches only `pastas`: rooms and
      drawers are the same rows afterwards. */
  lemma ConfirmValid(st: Store, sala: string, gaveta: string, nome: string)
    requires Valid(st)
    ensures Valid(ConfirmSpec(st, sala, gaveta, nome))
    ensures ConfirmSpec(st, sala, gaveta, nome).salas == st.salas
    ensures ConfirmSpec(st, sala, gaveta, nome).gavetas == st.gavetas
  {
    if Adds(st, sala, gaveta, nome) {
      var g :| Locates(st, sala, gaveta, g) && g.id == FindDrawer(st, sala, gaveta).value;
      assert g.id in DrawerIds(st.gavetas);
      AppendFolderValid(st, g.id, StoredName(nome).value);
    }
  }

  /** When no statement fails, confirm appends exactly one folder under the
      drawer the pair names, with the next id and the name as its column stores
      it (cut to 200 characters when only spaces follow); when a name holds a
      NUL, the pair does not resolve, or the name is too long with something
      other than spaces past the limit, the tables are unchanged. */
  lemma ConfirmOutcome(st: Store, sala: string, gaveta: string, nome: string)
    requires Valid(st)
    ensures forall g :: Locates(st, sala, gaveta, g) && Nul !in sala && Nul !in gaveta && Nul !in nome
                        && (|nome| <= NomeAlunoMax || AllBlank(nome[NomeAlunoMax..])) ==>
      ConfirmSpec(st, sala, gaveta, nome).pastas
        == st.pastas + [Pasta(st.nextPastaId, g.id, if |nome| <= NomeAlunoMax then nome else nome[..NomeAlunoMax])]
    ensures (|| Nul in sala || Nul in gaveta || Nul in nome
             || (forall g :: !Locates(st, sala, gaveta, g))
             || (|nome| > NomeAlunoMax && !AllBlank(nome[NomeAlunoMax..]))) ==>
      ConfirmSpec(st, sala, gaveta, nome) == st
  {
    forall g | Locates(st, sala, gaveta, g) && Nul !in sala && Nul !in gaveta && Nul !in nome
               && (|nome| <= NomeAlunoMax || AllBlank(nome[NomeAlunoMax..]))
      ensures ConfirmSpec(st, sala, gaveta, nome).pastas
        == st.pastas + [Pasta(st.nextPastaId, g.id, if |nome| <= NomeAlunoMax then nome else nome[..NomeAlunoMax])]
    {
      var g' :| Locates(st, sala, gaveta, g') && g'.id == FindDrawer(st, sala, gaveta).value;
      LocatesUnique(st, sala, gaveta, g, g');
    }
  }
}

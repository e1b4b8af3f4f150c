/** The page script's own logic: the fixed room -> drawers table of the
    selection lists, the trim guard of the confirm button, the counts of the
    progress panel and the numbered list of the current drawer's folders. */
module Client {
  import opened Wrappers
  import opened Text
  import opened Registry
  import opened Seeding
  import opened Listing
  import opened App

  /** The `gavetas` table of `atualizarGavetas`: the drawer options offered for
      each room, in order. */
  const GavetasPorSala: map<string, seq<string>> := map[
    "Sala 1" := ["Gaveta 1", "Gaveta 2", "Gaveta 3"],
    "Sala 2" := ["Gaveta 1", "Gaveta 2"],
    "Sala 3" := ["Gaveta 1", "Gaveta 2", "Gaveta 3", "Gaveta 4"]
  ]

  /** The page's table is the server's seed: the same rooms, and for each room
      the same drawers in the same order. */
  lemma GavetasPorSalaIsSeed()
    ensures GavetasPorSala.Keys == set k | 0 <= k < |SeedTaxonomy| :: SeedTaxonomy[k].0
    ensures forall k :: 0 <= k < |SeedTaxonomy| ==> GavetasPorSala[SeedTaxonomy[k].0] == SeedTaxonomy[k].1
  {
    assert SeedTaxonomy[0].0 == "Sala 1" && SeedTaxonomy[1].0 == "Sala 2" && SeedTaxonomy[2].0 == "Sala 3";
  }

  /** The `forEach` of `atualizarGavetas` that appends one option per drawer of
      the selected room; looking up a room missing from the table throws. */
  method OpcoesDeGaveta(sala: string) returns (opcoes: Option<seq<string>>)
    ensures opcoes.None? <==> sala !in GavetasPorSala
    ensures opcoes.Some? ==> opcoes.value == GavetasPorSala[sala]
  {
    if sala !in GavetasPorSala {
      return None;
    }
    var gavetas := GavetasPorSala[sala];
    var lista: seq<string> := [];
    var i := 0;
    while i < |gavetas|
      invariant 0 <= i <= |gavetas|
      invariant lista == gavetas[..i]
    {
      lista := lista + [gavetas[i]];
      assert gavetas[..i + 1] == gavetas[..i] + [gavetas[i]];
      i := i + 1;
    }
    assert gavetas[..|gavetas|] == gavetas;
    opcoes := Some(lista);
  }

  /** Every room/drawer pair the selection lists offer names a drawer once the
      seed has run, whatever the tables held before: a confirm made after any
      selection from the lists finds its drawer. */
  lemma OfferedPairsResolve(st: Store)
    requires Valid(st)
    ensures forall sala, gaveta :: sala in GavetasPorSala && gaveta in GavetasPorSala[sala] ==>
      FindDrawer(InitDbSpec(st), sala, gaveta).Some?
  {
    InitDbSeeds(st);
    GavetasPorSalaIsSeed();
    forall sala, gaveta | sala in GavetasPorSala && gaveta in GavetasPorSala[sala]
      ensures FindDrawer(InitDbSpec(st), sala, gaveta).Some?
    {
      var k :| 0 <= k < |SeedTaxonomy| && SeedTaxonomy[k].0 == sala;
      var j :| 0 <= j < |SeedTaxonomy[k].1| && SeedTaxonomy[k].1[j] == gaveta;
      assert HasDrawer(InitDbSpec(st), sala, gaveta);
    }
  }

  /** The guard of `confirmarNome`: the input trimmed as JavaScript trims; no
      request when nothing is left, otherwise the trimmed name is what is sent. */
  function NomeParaConfirmar(entrada: string): (r: Option<string>)
    ensures r.None? <==> AllSpace(entrada, IsJsSpace)
    ensures r.Some? ==> r.value != [] && !IsJsSpace(r.value[0]) && !IsJsSpace(r.value[|r.value| - 1])
    ensures r.Some? ==> exists a, b :: (0 <= a <= b <= |entrada| && r.value == entrada[a..b]
      && AllSpace(entrada[..a], IsJsSpace) && AllSpace(entrada[b..], IsJsSpace))
  {
    var nome := Strip(entrada, IsJsSpace);
    if nome == [] then None else Some(nome)
  }

  /** A name that went through the guard once passes it again unchanged. */
  lemma NomeParaConfirmarStable(entrada: string)
    requires NomeParaConfirmar(entrada).Some?
    ensures NomeParaConfirmar(NomeParaConfirmar(entrada).value) == NomeParaConfirmar(entrada)
  {
    StripIdempotent(entrada, IsJsSpace);
  }

  /** A name that went through the guard never ends in a space, so its column
      takes it whole when it fits and refuses it otherwise: the cut of trailing
      spaces past 200 characters never applies to what the page sends. */
  lemma NomeAparadoNaColuna(entrada: string)
    requires NomeParaConfirmar(entrada).Some?
    ensures StoredName(NomeParaConfirmar(entrada).value).Some? <==> |NomeParaConfirmar(entrada).value| <= NomeAlunoMax
    ensures StoredName(NomeParaConfirmar(entrada).value).Some? ==>
      StoredName(NomeParaConfirmar(entrada).value).value == NomeParaConfirmar(entrada).value
  {
    var nome := NomeParaConfirmar(entrada).value;
    assert IsJsSpace(' ');
    SemEspacoFinal(nome);
  }

  /** A name whose last character is not a space has a column value only when
      it fits, and that value is the name itself. */
  lemma SemEspacoFinal(nome: string)
    requires nome != [] && nome[|nome| - 1] != ' '
    ensures StoredName(nome).Some? <==> |nome| <= NomeAlunoMax
    ensures StoredName(nome).Some? ==> StoredName(nome).value == nome
  {
    if |nome| > NomeAlunoMax {
      var resto := nome[NomeAlunoMax..];
      assert resto[|resto| - 1] == nome[|nome| - 1];
    }
  }

  /** `confirmarNome` with the refresh it triggers: the input is trimmed; a
      blank input sends nothing. Otherwise the trimmed name is posted, and on
      success the hierarchy is loaded again (`carregarDados`), else the page
      keeps the one it shows. The listing keeps its rooms and drawers; the
      current drawer lists the name once more exactly when the server
      confirmed; every other list keeps its contents. */
  method ConfirmarNomeNaPagina(server: Server, entrada: string)
    returns (nome: Option<string>, resp: Option<ConfirmResposta>, before: Hierarchy, after: Hierarchy)
    requires server.Valid()
    modifies server
    ensures server.Valid()
    ensures nome == NomeParaConfirmar(entrada)
    ensures resp.Some? <==> nome.Some?
    ensures resp.None? ==> server.Tables() == old(server.Tables()) && after == before
    ensures resp.Some? ==>
      (resp.value.Confirmado? <==> Adds(old(server.Tables()), server.salaAtual, server.gavetaAtual, nome.value))
    ensures resp.Some? ==>
      (resp.value.Confirmado? <==>
        (exists g :: Locates(old(server.Tables()), server.salaAtual, server.gavetaAtual, g))
        && Nul !in server.salaAtual && Nul !in server.gavetaAtual && Nul !in nome.value
        && |nome.value| <= NomeAlunoMax)
    ensures after.Keys == before.Keys
    ensures forall n :: n in before ==> after[n].Keys == before[n].Keys
    ensures forall n, k :: n in before && k in before[n] ==>
      multiset(after[n][k]) == multiset(before[n][k])
        + (if n == server.salaAtual && k == Some(server.gavetaAtual) && resp.Some? && resp.value.Confirmado?
           then multiset{nome.value} else multiset{})
  {
    var s0, g0;
    before, s0, g0 := server.GetSalas();
    nome := NomeParaConfirmar(entrada);
    if nome.None? {
      resp, after := None, before;
      return;
    }
    NomeAparadoNaColuna(entrada);
    ghost var st0 := server.Tables();
    var r := server.ConfirmarNome(nome.value);
    resp := Some(r);
    if r.Confirmado? {
      var s1, g1;
      after, s1, g1 := server.GetSalas();
      ConfirmHierarchy(st0, server.salaAtual, server.gavetaAtual, nome.value, before, after);
    } else {
      after := before;
    }
  }

  /** The drawers of one room in the received hierarchy: `Object.keys(gavetas).length`. */
  function ChavesDaSala(d: map<Option<string>, seq<string>>): (n: nat)
    ensures n == 0 <==> d == map[]
    ensures forall k :: k in d ==> n >= 1
  {
    assert d != map[] ==> exists k :: k in d.Keys;
    |d.Keys|
  }

  /** The drawers of one room whose folder list is not empty. */
  function Preenchidas(d: map<Option<string>, seq<string>>): (s: set<Option<string>>)
    ensures s <= d.Keys
    ensures forall k :: k in s <==> k in d && |d[k]| > 0
  {
    set k | k in d && |d[k]| > 0
  }

  /** `Object.values(gavetas).filter(pastas => pastas.length > 0).length`. */
  function PreenchidasDaSala(d: map<Option<string>, seq<string>>): (n: nat)
    ensures n <= ChavesDaSala(d)
  {
    SubsetCard(Preenchidas(d), d.Keys);
    |Preenchidas(d)|
  }

  lemma SubsetCard<T>(a: set<T>, b: set<T>)
    requires a <= b
    ensures |a| <= |b|
  {
    if a != {} {
      var x :| x in a;
      SubsetCard(a - {x}, b - {x});
    }
  }

  /** `Object.values(data.salas).reduce((total, gavetas) => total + f(gavetas), 0)`:
      the sum of `f` over the rooms; the sum does not depend on the order the
      rooms are visited in (`SomaSemSala`). */
  ghost function Soma(h: Hierarchy, f: map<Option<string>, seq<string>> -> nat): nat
    decreases |h.Keys|
  {
    if h == map[] then 0
    else
      var n :| n in h;
      f(h[n]) + Soma(h - {n}, f)
  }

  /** Any room can be taken out of the sum first. */
  lemma {:induction false} SomaSemSala(h: Hierarchy, f: map<Option<string>, seq<string>> -> nat, n: string)
    requires n in h
    ensures Soma(h, f) == f(h[n]) + Soma(h - {n}, f)
    decreases |h.Keys|
  {
    var m :| m in h && Soma(h, f) == f(h[m]) + Soma(h - {m}, f);
    if m != n {
      SomaSemSala(h - {m}, f, n);
      SomaSemSala(h - {n}, f, m);
      assert h - {m} - {n} == h - {n} - {m};
    }
  }

  /** Sums over the same rooms compare room by room. */
  lemma {:induction false} SomaMenorIgual(h: Hierarchy, f: map<Option<string>, seq<string>> -> nat,
                                          h': Hierarchy, g: map<Option<string>, seq<string>> -> nat)
    requires h'.Keys == h.Keys
    requires forall n :: n in h ==> f(h[n]) <= g(h'[n])
    ensures Soma(h, f) <= Soma(h', g)
    decreases |h.Keys|
  {
    if h != map[] {
      var n :| n in h && Soma(h, f) == f(h[n]) + Soma(h - {n}, f);
      SomaSemSala(h', g, n);
      assert (h' - {n}).Keys == (h - {n}).Keys;
      SomaMenorIgual(h - {n}, f, h' - {n}, g);
    }
  }

  /** The sum over the rooms is at least any one room's term. */
  lemma SomaCobre(h: Hierarchy, f: map<Option<string>, seq<string>> -> nat)
    ensures forall n :: n in h ==> f(h[n]) <= Soma(h, f)
  {
    forall n | n in h ensures f(h[n]) <= Soma(h, f) {
      SomaSemSala(h, f, n);
    }
  }

  /** `totalGavetas`: the sum over the rooms of their number of drawers. */
  ghost function TotalGavetas(h: Hierarchy): (t: nat)
    ensures forall n :: n in h ==> ChavesDaSala(h[n]) <= t
  {
    SomaCobre(h, ChavesDaSala);
    Soma(h, ChavesDaSala)
  }

  /** `gavetasPreenchidas`: the sum over the rooms of their drawers with folders. */
  ghost function GavetasPreenchidas(h: Hierarchy): (p: nat)
    ensures forall n :: n in h ==> PreenchidasDaSala(h[n]) <= p
  {
    SomaCobre(h, PreenchidasDaSala);
    Soma(h, PreenchidasDaSala)
  }

  /** The progress panel never shows more filled drawers than drawers. */
  lemma PreenchidasAteTotal(h: Hierarchy)
    ensures 0 <= GavetasPreenchidas(h) <= TotalGavetas(h)
  {
    SomaMenorIgual(h, PreenchidasDaSala, h, ChavesDaSala);
  }

  /** The total of one room is its drawer count plus the rest: the total is
      the sum over the rooms. */
  lemma TotalPorSala(h: Hierarchy, n: string)
    requires n in h
    ensures TotalGavetas(h) == |h[n].Keys| + TotalGavetas(h - {n})
  {
    SomaSemSala(h, ChavesDaSala, n);
  }

  /** `data.salas[currentSala][currentGaveta].length`, which throws when the
      room or the drawer is missing from the hierarchy. */
  function ContadorGaveta(h: Hierarchy, sala: string, gaveta: string): (c: Option<nat>)
    ensures c.Some? <==> sala in h && Some(gaveta) in h[sala]
    ensures c.Some? ==> c.value == |multiset(h[sala][Some(gaveta)])|
  {
    if sala in h && Some(gaveta) in h[sala] then Some(|h[sala][Some(gaveta)]|) else None
  }

  /** A confirm leaves the total of the progress panel as it was: a listing
      taken after it has the same rooms and drawers as one taken before. */
  lemma ConfirmTotal(st: Store, sala: string, gaveta: string, nome: string, h: Hierarchy, h': Hierarchy)
    requires Valid(st) && Describes(st, h) && Describes(ConfirmSpec(st, sala, gaveta, nome), h')
    ensures TotalGavetas(h') == TotalGavetas(h)
  {
    ConfirmShape(st, sala, gaveta, nome, h, h');
    MesmasChaves(h, h');
  }

  /** Two listings with the same rooms and drawers have the same total. */
  lemma MesmasChaves(h: Hierarchy, h': Hierarchy)
    requires h'.Keys == h.Keys && forall n :: n in h ==> h'[n].Keys == h[n].Keys
    ensures TotalGavetas(h') == TotalGavetas(h)
  {
    SomaMenorIgual(h, ChavesDaSala, h', ChavesDaSala);
    SomaMenorIgual(h', ChavesDaSala, h, ChavesDaSala);
  }

  /** A confirm never lowers the filled count: no drawer loses a folder. */
  lemma ConfirmPreenchidas(st: Store, sala: string, gaveta: string, nome: string, h: Hierarchy, h': Hierarchy)
    requires Valid(st) && Describes(st, h) && Describes(ConfirmSpec(st, sala, gaveta, nome), h')
    ensures GavetasPreenchidas(h) <= GavetasPreenchidas(h')
  {
    ConfirmHierarchy(st, sala, gaveta, nome, h, h');
    forall n | n in h ensures PreenchidasDaSala(h[n]) <= PreenchidasDaSala(h'[n]) {
      assert Preenchidas(h[n]) <= Preenchidas(h'[n]) by {
        forall k | k in Preenchidas(h[n]) ensures k in Preenchidas(h'[n]) {
          assert |multiset(h[n][k])| <= |multiset(h'[n][k])|;
        }
      }
      SubsetCard(Preenchidas(h[n]), Preenchidas(h'[n]));
    }
    SomaMenorIgual(h, PreenchidasDaSala, h', PreenchidasDaSala);
  }

  /** The counter of the current drawer grows by one with a confirm that adds
      a folder, and stays as it was otherwise. */
  lemma ConfirmContador(st: Store, sala: string, gaveta: string, nome: string, h: Hierarchy, h': Hierarchy)
    requires Valid(st) && Describes(st, h) && Describes(ConfirmSpec(st, sala, gaveta, nome), h')
    ensures Adds(st, sala, gaveta, nome) ==>
      ContadorGaveta(h, sala, gaveta).Some?
      && ContadorGaveta(h', sala, gaveta) == Some(ContadorGaveta(h, sala, gaveta).value + 1)
    ensures !Adds(st, sala, gaveta, nome) ==> ContadorGaveta(h', sala, gaveta) == ContadorGaveta(h, sala, gaveta)
  {
    if FindDrawer(st, sala, gaveta).Some? {
      LocatedKey(st, sala, gaveta, h);
    }
    if sala in h && Some(gaveta) in h[sala] {
      ConfirmEntry(st, sala, gaveta, nome, h, h', sala, Some(gaveta));
      var novo := if Adds(st, sala, gaveta, nome) then StoredName(nome).value else nome;
      ContadorPorMultiset(h, h', sala, gaveta, novo, Adds(st, sala, gaveta, nome));
    } else {
      ConfirmShape(st, sala, gaveta, nome, h, h');
    }
  }

  /** A drawer list that gains one name, or keeps its contents, gives a
      counter one higher, or the same. */
  lemma ContadorPorMultiset(h: Hierarchy, h': Hierarchy, sala: string, gaveta: string, nome: string, added: bool)
    requires sala in h && Some(gaveta) in h[sala] && sala in h' && Some(gaveta) in h'[sala]
    requires multiset(h'[sala][Some(gaveta)])
          == multiset(h[sala][Some(gaveta)]) + (if added then multiset{nome} else multiset{})
    ensures ContadorGaveta(h', sala, gaveta) == Some(ContadorGaveta(h, sala, gaveta).value + (if added then 1 else 0))
  {
  }

  /** A pair that resolves is a key of the listing. */
  lemma LocatedKey(st: Store, sala: string, gaveta: string, h: Hierarchy)
    requires Describes(st, h) && FindDrawer(st, sala, gaveta).Some?
    ensures sala in h && Some(gaveta) in h[sala]
  {
    var g :| Locates(st, sala, gaveta, g);
    var s := Sala(g.salaId, sala);
    assert RoomDescribed(st, s, h[sala]);
  }

  /** The current drawer's counter, against the tables: it is shown exactly
      when the location names a drawer, and it is then the number of folder
      rows referencing that drawer. */
  lemma ContadorDasPastas(st: Store, sala: string, gaveta: string, h: Hierarchy)
    requires Valid(st) && Describes(st, h)
    ensures ContadorGaveta(h, sala, gaveta).Some? <==> FindDrawer(st, sala, gaveta).Some?
    ensures forall g :: Locates(st, sala, gaveta, g) ==>
      ContadorGaveta(h, sala, gaveta) == Some(|FolderRows(st.pastas, g.id)|)
  {
    if FindDrawer(st, sala, gaveta).Some? {
      LocatedKey(st, sala, gaveta, h);
    } else if sala in h && Some(gaveta) in h[sala] {
      var s :| s in st.salas && s.nome == sala;
      assert RoomDescribed(st, s, h[sala]);
      var g :| g in st.gavetas && g.salaId == s.id && Some(gaveta) == Some(g.nome);
      assert Locates(st, sala, gaveta, g);
      assert false;
    }
    forall g | Locates(st, sala, gaveta, g)
      ensures ContadorGaveta(h, sala, gaveta) == Some(|FolderRows(st.pastas, g.id)|)
    {
      var s := Sala(g.salaId, sala);
      assert RoomDescribed(st, s, h[sala]);
      assert |h[sala][Some(gaveta)]| == |multiset(FolderNames(st.pastas, g.id))|;
      FolderNamesCount(st.pastas, g.id);
    }
  }

  /** A drawer counts as filled in the progress panel exactly when some folder
      row references it; the NULL key of a room without drawers never does. */
  lemma PreenchidaSe(st: Store, h: Hierarchy, s: Sala, g: Gaveta)
    requires Valid(st) && Describes(st, h)
    requires s in st.salas && g in st.gavetas && g.salaId == s.id
    ensures s.nome in h && None !in Preenchidas(h[s.nome])
    ensures Some(g.nome) in Preenchidas(h[s.nome]) <==> exists p :: p in st.pastas && p.gavetaId == g.id
  {
    assert RoomDescribed(st, s, h[s.nome]);
    var l := h[s.nome][Some(g.nome)];
    assert |l| == |multiset(FolderNames(st.pastas, g.id))|;
    ComPastas(st.pastas, g.id);
  }

  /** A drawer's folder list is not empty exactly when some folder row
      references the drawer. */
  lemma ComPastas(pastas: seq<Pasta>, gavetaId: nat)
    ensures FolderNames(pastas, gavetaId) != [] <==> exists p :: p in pastas && p.gavetaId == gavetaId
  {
    var r := FolderNames(pastas, gavetaId);
    if r != [] {
      assert r[0] in r;
    }
    if p :| p in pastas && p.gavetaId == gavetaId {
      assert p.nomeAluno in r;
    }
  }

  const NenhumaPasta: string := "Nenhuma pasta ainda"

  /** The list of the current drawer's folders: item `i` reads
      "<i + 1>. <name>", in list order; an empty drawer shows the single
      placeholder item instead. */
  method ListaPastas(pastas: seq<string>) returns (itens: seq<string>)
    ensures pastas == [] ==> itens == [NenhumaPasta]
    ensures pastas != [] ==> |itens| == |pastas|
    ensures pastas != [] ==> forall i :: 0 <= i < |itens| ==>
      itens[i] == DecimalString(i + 1) + ". " + pastas[i]
      && ParseNumbered(itens[i]) == Some((i + 1, pastas[i]))
  {
    itens := [];
    var i := 0;
    while i < |pastas|
      invariant 0 <= i <= |pastas| && |itens| == i
      invariant forall j :: 0 <= j < i ==>
        itens[j] == DecimalString(j + 1) + ". " + pastas[j]
        && ParseNumbered(itens[j]) == Some((j + 1, pastas[j]))
    {
      NumberedRoundTrip(i + 1, pastas[i]);
      itens := itens + [DecimalString(i + 1) + ". " + pastas[i]];
      i := i + 1;
    }
    if |pastas| == 0 {
      itens := [NenhumaPasta];
    }
  }
}

/** The server: the text assembly of the OCR step, and the application state
    (the database tables and the current room and drawer) with the handlers
    that read and change it. */
module App {
  import opened Wrappers
  import opened Text
  import opened Registry
  import opened Seeding
  import opened Listing

  /** What the OCR engine's `readtext` did: the recognised fragments, in
      reading order, or the text of the exception it raised. */
  datatype OcrOutcome = Recognised(fragments: seq<string>) | Raised(message: string)

  const ErroOcr: string := "Erro no OCR: "

  /** `extrair_texto`: the fragments joined with one space and stripped of
      white space at both ends, or, when the engine raises, the error prefix
      followed by the exception text; it never raises itself. */
  function ExtrairTexto(ocr: OcrOutcome): (r: string)
    ensures ocr.Raised? ==> ErroOcr <= r && r[|ErroOcr|..] == ocr.message
    ensures ocr.Recognised? ==> exists a, b :: (0 <= a <= b <= |Join(ocr.fragments, " ")|
      && r == Join(ocr.fragments, " ")[a..b]
      && AllSpace(Join(ocr.fragments, " ")[..a], IsPySpace)
      && AllSpace(Join(ocr.fragments, " ")[b..], IsPySpace))
    ensures ocr.Recognised? && r != [] ==> !IsPySpace(r[0]) && !IsPySpace(r[|r| - 1])
    ensures ocr.Recognised? ==> (r == [] <==> AllSpace(Join(ocr.fragments, " "), IsPySpace))
  {
    match ocr
    case Recognised(fragments) => Strip(Join(fragments, " "), IsPySpace)
    case Raised(message) => ErroOcr + message
  }

  /** A fragment as the engine reports a word: not empty, no white space in it. */
  predicate IsWord(w: string) {
    w != [] && forall i :: 0 <= i < |w| ==> !IsPySpace(w[i])
  }

  /** When the engine recognises at least one fragment and every fragment is a
      word, splitting the text at the spaces gives the fragments back. */
  lemma ExtrairTextoWords(fragments: seq<string>)
    requires |fragments| >= 1 && forall i :: 0 <= i < |fragments| ==> IsWord(fragments[i])
    ensures Split(ExtrairTexto(Recognised(fragments)), ' ') == fragments
  {
    var joined := Join(fragments, " ");
    var last := fragments[|fragments| - 1];
    assert IsWord(fragments[0]) && IsWord(last);
    JoinFirst(fragments, " ");
    JoinLast(fragments, " ");
    assert !IsPySpace(fragments[0][0]) && !IsPySpace(last[|last| - 1]);
    StripUnchanged(joined, IsPySpace);
    forall i | 0 <= i < |fragments| ensures ' ' !in fragments[i] {
      assert IsWord(fragments[i]);
    }
    SplitJoin(fragments, ' ');
  }

  /** What the image pipeline before the OCR engine (data-URL payload base64
      decoding, `imdecode`, grey-scale and median blur, then the engine) gives
      for a payload: the engine's outcome, or the text of the exception one of
      the decoding steps raised. */
  datatype Decoding = Decoded(ocr: OcrOutcome) | DecodeFailed(message: string)

  /** The answer of `processar_imagem`. */
  datatype ImagemResposta =
    | ImagemOk(nomeDetectado: string, salaAtual: string, gavetaAtual: string)
    | ImagemErro(error: string)

  /** The answer of `confirmar_nome`. */
  datatype ConfirmResposta = Confirmado(message: string) | NaoConfirmado(error: string)

  /** The text of the exception `header, encoded = image_data.split(",", 1)`
      raises when the data URL has no comma. */
  const UnpackError: string := "not enough values to unpack (expected 2, got 1)"

  /** The text of the exception `cur.fetchone()[0]` raises when the query gave
      no row. */
  const NoRowError: string := "'NoneType' object is not subscriptable"

  /** The text of the database error for a folder name longer than its column. */
  const TooLongError: string := "value too long for type character varying(200)\n"

  /** The text of the driver's refusal of a parameter holding NUL. */
  const NulError: string := "A string literal cannot contain NUL (0x00) characters."

  /** The part of a data URL after its first comma. */
  function Payload(imagem: string): (r: string)
    requires ',' in imagem
    ensures exists header :: ',' !in header && imagem == header + [','] + r
  {
    var i := IndexOf(imagem, ',');
    assert imagem == imagem[..i] + [','] + imagem[i + 1..];
    imagem[i + 1..]
  }

  /** The confirmation message of a folder added at a location. */
  function Adicionado(nome: string, sala: string, gaveta: string): string {
    "Adicionado: " + nome + " -> " + sala + "/" + gaveta
  }

  /** The loop of `get_salas` over the query's rows: a room's dictionary is
      created on its first row, then the row's drawer is set to its folders. */
  method FoldRows(rows: seq<Row>) returns (salasDict: Hierarchy)
    ensures salasDict == Fold(rows)
  {
    salasDict := map[];
    var i := 0;
    while i < |rows|
      invariant 0 <= i <= |rows|
      invariant salasDict == Fold(rows[..i])
    {
      var row := rows[i];
      FoldSnoc(rows[..i], row);
      assert rows[..i + 1] == rows[..i] + [row];
      if row.sala !in salasDict {
        salasDict := salasDict[row.sala := map[]];
      }
      salasDict := salasDict[row.sala := salasDict[row.sala][row.gaveta := row.pastas]];
      i := i + 1;
    }
    assert rows[..|rows|] == rows;
  }

  /** The process state of the Flask application: the three tables of its
      database, the sequences behind their ids, and the two module globals
      holding the room and drawer new folders go to. */
  class Server {
    var salas: seq<Sala>
    var gavetas: seq<Gaveta>
    var pastas: seq<Pasta>
    var nextSalaId: nat
    var nextGavetaId: nat
    var nextPastaId: nat
    var salaAtual: string
    var gavetaAtual: string

    /** The database, as a value. */
    function Tables(): Store
      reads this
    {
      Store(salas, gavetas, pastas, nextSalaId, nextGavetaId, nextPastaId)
    }

    /** The constraints of the database hold. */
    ghost predicate Valid()
      reads this
    {
      Registry.Valid(Tables())
    }

    /** A process started on an empty database: empty tables, each sequence at
        its first value, and the location at its initial value. */
    constructor ()
      ensures Valid()
      ensures Tables() == Store([], [], [], 1, 1, 1)
      ensures salaAtual == "Sala 1" && gavetaAtual == "Gaveta 1"
    {
      salas, gavetas, pastas := [], [], [];
      nextSalaId, nextGavetaId, nextPastaId := 1, 1, 1;
      salaAtual, gavetaAtual := "Sala 1", "Gaveta 1";
    }

    /** A process started on a database that already holds tables (they
        outlive the process): the tables as they are, and the location at its
        initial value. */
    constructor OnDatabase(db: Store)
      requires Registry.Valid(db)
      ensures Valid()
      ensures Tables() == db
      ensures salaAtual == "Sala 1" && gavetaAtual == "Gaveta 1"
    {
      salas, gavetas, pastas := db.salas, db.gavetas, db.pastas;
      nextSalaId, nextGavetaId, nextPastaId := db.nextSalaId, db.nextGavetaId, db.nextPastaId;
      salaAtual, gavetaAtual := "Sala 1", "Gaveta 1";
    }

    /** `init_db`: the room insert, then, room by room of the taxonomy, the
        room's id lookup and the room's drawers. */
    method InitDb()
      requires Valid()
      modifies this
      ensures Valid()
      ensures Tables() == InitDbSpec(old(Tables()))
      ensures salaAtual == old(salaAtual) && gavetaAtual == old(gavetaAtual)
    {
      var st0 := Tables();
      var rooms := InsertSalas(st0, SeedRooms);
      salas, nextSalaId := rooms.salas, rooms.nextSalaId;
      InsertSalasAdds(st0, SeedRooms);
      SeedRoomsCoverTaxonomy();
      var k := 0;
      while k < |SeedTaxonomy|
        invariant 0 <= k <= |SeedTaxonomy|
        invariant forall k' :: 0 <= k' < |SeedTaxonomy| ==> HasSala(rooms.salas, SeedTaxonomy[k'].0)
        invariant Tables() == SeedDrawers(rooms, SeedTaxonomy[..k])
        invariant salaAtual == old(salaAtual) && gavetaAtual == old(gavetaAtual)
      {
        SeedDrawersStep(rooms, SeedTaxonomy, k);
        var salaId := SalaIdOf(salas, SeedTaxonomy[k].0).value;
        InsertDrawers(salaId, SeedTaxonomy[k].1);
        k := k + 1;
      }
      assert SeedTaxonomy[..|SeedTaxonomy|] == SeedTaxonomy;
      InitDbValid(st0);
    }

    /** The inner loop of `init_db`: one insert-if-absent per drawer name, the
        name serving as the drawer's number too. */
    method InsertDrawers(salaId: nat, nomes: seq<string>)
      requires salaId in RoomIds(salas)
      modifies this
      ensures Tables() == InsertGavetas(old(Tables()), salaId, nomes)
      ensures salaAtual == old(salaAtual) && gavetaAtual == old(gavetaAtual)
    {
      ghost var before := Tables();
      var j := 0;
      while j < |nomes|
        invariant 0 <= j <= |nomes|
        invariant Tables() == InsertGavetas(before, salaId, nomes[..j])
        invariant salaAtual == old(salaAtual) && gavetaAtual == old(gavetaAtual)
      {
        InsertGavetasStep(before, salaId, nomes, j);
        var t := InsertGaveta(Tables(), salaId, nomes[j], nomes[j]);
        gavetas, nextGavetaId := t.gavetas, t.nextGavetaId;
        j := j + 1;
      }
      assert nomes[..|nomes|] == nomes;
    }

    /** `get_salas`: the query's rows folded, one at a time, into the room ->
        drawer -> folders dictionary, which describes the tables; the current
        location is reported beside it. */
    method GetSalas() returns (salasDict: Hierarchy, sala: string, gaveta: string)
      requires Valid()
      ensures Describes(Tables(), salasDict)
      ensures sala == salaAtual && gaveta == gavetaAtual
    {
      salasDict := FoldRows(QueryRows(Tables()));
      QueryDescribes(Tables());
      sala, gaveta := salaAtual, gavetaAtual;
    }

    /** `set_sala_gaveta`: the location becomes exactly the two given strings,
        whether or not they name a room and one of its drawers; the tables do
        not change. */
    method SetSalaGaveta(sala: string, gaveta: string)
      modifies this
      ensures salaAtual == sala && gavetaAtual == gaveta
      ensures Tables() == old(Tables())
    {
      salaAtual, gavetaAtual := sala, gaveta;
    }

    /** `processar_imagem`: a data URL without a comma is an error; otherwise
        the payload after the first comma goes through the decoding pipeline,
        and a decoded image is answered with the assembled OCR text and the
        current location (an OCR engine failure included, as its error text).
        Nothing changes. */
    method ProcessarImagem(imagem: string, pipeline: string -> Decoding) returns (resp: ImagemResposta)
      ensures resp.ImagemOk? <==> ',' in imagem && pipeline(Payload(imagem)).Decoded?
      ensures resp.ImagemOk? ==>
        resp == ImagemOk(ExtrairTexto(pipeline(Payload(imagem)).ocr), salaAtual, gavetaAtual)
      ensures ',' !in imagem ==> resp == ImagemErro(UnpackError)
      ensures ',' in imagem && pipeline(Payload(imagem)).DecodeFailed? ==>
        resp == ImagemErro(pipeline(Payload(imagem)).message)
    {
      if ',' !in imagem {
        return ImagemErro(UnpackError);
      }
      var encoded := Payload(imagem);
      match pipeline(encoded)
      case DecodeFailed(message) =>
        resp := ImagemErro(message);
      case Decoded(ocr) =>
        resp := ImagemOk(ExtrairTexto(ocr), salaAtual, gavetaAtual);
    }

    /** `confirmar_nome`: the drawer named by the current location is looked
        up; when there is one, a folder with the given name is added to it and
        the answer names it. The answer is a failure, with nothing inserted,
        when the driver refuses a parameter holding NUL (the location's names
        for the lookup, the name for the insert), when there is no such drawer,
        or when the database rejects the name as too long. The location is
        never changed. */
    method ConfirmarNome(nome: string) returns (resp: ConfirmResposta)
      requires Valid()
      modifies this
      ensures Valid()
      ensures Tables() == ConfirmSpec(old(Tables()), salaAtual, gavetaAtual, nome)
      ensures salaAtual == old(salaAtual) && gavetaAtual == old(gavetaAtual)
      ensures salas == old(salas) && gavetas == old(gavetas)
      ensures resp.Confirmado? <==>
        && Nul !in salaAtual && Nul !in gavetaAtual && Nul !in nome
        && (exists g :: Locates(old(Tables()), salaAtual, gavetaAtual, g))
        && (|nome| <= NomeAlunoMax || AllBlank(nome[NomeAlunoMax..]))
      ensures forall g :: Locates(old(Tables()), salaAtual, gavetaAtual, g) && resp.Confirmado? ==>
        pastas == old(pastas) + [Pasta(old(nextPastaId), g.id, StoredName(nome).value)]
      ensures resp.Confirmado? ==> resp.message == Adicionado(nome, salaAtual, gavetaAtual)
      ensures resp.NaoConfirmado? ==> Tables() == old(Tables())
      ensures resp.NaoConfirmado? ==>
        resp.error == (if Nul in salaAtual || Nul in gavetaAtual then NulError
                       else if FindDrawer(old(Tables()), salaAtual, gavetaAtual).None? then NoRowError
                       else if Nul in nome then NulError
                       else TooLongError)
    {
      ghost var st0 := Tables();
      ConfirmOutcome(st0, salaAtual, gavetaAtual, nome);
      ConfirmValid(st0, salaAtual, gavetaAtual, nome);
      if Nul in salaAtual || Nul in gavetaAtual {
        resp := NaoConfirmado(NulError);
      } else {
        match FindDrawer(Tables(), salaAtual, gavetaAtual)
        case None =>
          resp := NaoConfirmado(NoRowError);
        case Some(gavetaId) =>
          if Nul in nome {
            resp := NaoConfirmado(NulError);
          } else {
            match StoredName(nome)
            case None =>
              resp := NaoConfirmado(TooLongError);
            case Some(valor) =>
              pastas, nextPastaId := pastas + [Pasta(nextPastaId, gavetaId, valor)], nextPastaId + 1;
              resp := Confirmado(Adicionado(nome, salaAtual, gavetaAtual));
          }
      }
    }
  }
}

# CadastroPorImagem — a Dafny model of the folder registry

CadastroPorImagem files student folders ("pastas") into drawers ("gavetas")
that belong to rooms ("salas"). A photo of a folder label is sent to the
server, read by OCR, and the recognised name comes back. Once the name is
confirmed, the server stores the folder under the current room/drawer
location. The browser lists the rooms, drawers and folders, and shows
progress counters.

This project models that core. It has two halves.

**Server (`app.py`):**
- the three tables and the constraints the schema puts on them;
- `init_db` (the schema plus its seed data);
- the OCR text assembly of `extrair_texto`;
- the routes `get_salas`, `set_sala_gaveta`, `processar_imagem` and `confirmar_nome`;
- the two globals holding the current location.

**Browser (`static/script.js`):**
- the fixed drawer lists of the selection boxes;
- the blank-name guard of `confirmarNome`;
- the three counters and the folder list of `atualizarEstatisticas`.

Modules:

- `Wrappers`: `Option`.
- `Text`: the two whitespace sets.
  - Python's `str.strip` and JavaScript's `trim` share one parameterised `Strip`.
  - `" ".join`, and `str.split` as its inverse.
  - Decimal numbering `"<n>. <name>"` and its parser.
- `Registry`: one row type per table, plus the `Store` of all three tables.
  - Each table has its own SERIAL counter.
  - `Valid` covers the primary keys, `UNIQUE` and both foreign keys. It also holds two invariants the program keeps beyond the schema: every drawer's number equals its name, and every id is below its sequence's next value.
  - Every SELECT of the core is a function from the tables to its result, and every INSERT a function from tables to tables.
- `Seeding`: `init_db` as `InitDbSpec`, with validity, seeding, idempotence and its result on empty tables.
- `Listing`:
  - the `get_salas` query as rows (`QueryRows`) and the loop that folds them into a nested dictionary (`Fold`);
  - `Describes`, which says what that dictionary means in terms of the tables;
  - how one confirm changes the listing.
- `App`: class `Server`.
  - Its fields are the three tables, the counters, and `sala_atual`/`gaveta_atual`.
  - Its methods are the routes and `init_db`.
  - Each method is proved against the `Registry`, `Seeding` and `Listing` functions.
- `Client`: the browser-side computations over the dictionary that `get_salas` returns.

## Model

| member | source | states |
|---|---|---|
| Registry.SalaIdOf | app.py:73-74 | The room lookup finds an id exactly when a room of that name exists, and the id found belongs to a room of that name |
| Registry.FindDrawer | app.py:178-184 | The confirm query yields a drawer id exactly when some drawer of that name sits in a room of that name, and the id is such a drawer's |
| Registry.LocatesUnique | app.py:38-50 | Under UNIQUE(nome) on rooms and UNIQUE(sala_id, numero) on drawers (names equal numbers), a room/drawer pair names at most one drawer |
| Registry.InsertSalaValid | app.py:64 | Inserting a room with ON CONFLICT DO NOTHING keeps every key, uniqueness and foreign-key constraint |
| Registry.InsertGavetaValid | app.py:76-80 | Inserting a drawer with number equal to name into an existing room keeps every constraint |
| Registry.AppendFolderValid | app.py:186-189 | Inserting a folder under an existing drawer keeps every constraint, including the foreign key to gavetas |
| Registry.ConfirmValid | app.py:178-191 | The confirm transaction keeps every constraint and leaves rooms and drawers as they were |
| Registry.StoredName | app.py:58 | The value the VARCHAR(200) column keeps: the name itself when it has at most 200 characters, its first 200 characters when everything beyond them is spaces, and no value (an error) otherwise |
| Registry.InsertSalaAdds | app.py:64 | After the insert the room exists; an existing name leaves the rooms as they were; at most one row is appended and none removed; a sequence value is drawn either way; drawers and folders are untouched |
| Registry.InsertGavetaAdds | app.py:76-80 | After the insert the drawer exists in its room; an existing room/number pair leaves the drawers as they were; at most one row is appended and none removed; a sequence value is drawn either way; rooms and folders are untouched |
| Registry.AppendFolder | app.py:186-189 | The folder insert keeps every old folder row in place and appends exactly one row holding the next id, the drawer and the name; rooms and drawers are untouched |
| Registry.ConfirmSpec | app.py:178-191 | Rooms and drawers never change; the folders change exactly when `Adds` holds (no NUL in the three strings, the pair names a drawer, the name fits the column), and then by one appended row |
| Registry.ConfirmOutcome | app.py:178-204 | When no NUL occurs, the pair resolves and the name fits VARCHAR(200), exactly one folder is appended under that drawer with the next id, holding the name or, when only spaces exceed 200 characters, its first 200 characters; on a NUL, a missing pair or a longer name the tables are unchanged |
| Seeding.InsertSalas | app.py:64 | The multi-row room insert touches only rooms and draws one sequence value per listed room |
| Seeding.InsertGavetas | app.py:76-80 | The drawer inserts of one room touch only drawers and draw one sequence value per listed drawer |
| Seeding.SeedDrawers | app.py:72-80 | The taxonomy loop touches only drawers and leaves rooms, folders and their counters as they were |
| Seeding.InitDbSpec | app.py:64-80 | Seeding never touches the folders or their counter |
| Seeding.InitDbAdds | app.py:64-80 | Seeding only adds rows: old rooms and drawers are kept as a prefix, and every new room or drawer comes from the seed taxonomy |
| Seeding.InitDbValid | app.py:30-84 | Seeding keeps every schema constraint |
| Seeding.InitDbSeeds | app.py:66-80 | After seeding, every room/drawer pair of the seed taxonomy is present |
| Seeding.InitDbOnSeeded | app.py:64-80 | On tables that already hold the whole taxonomy, seeding leaves every table's rows unchanged |
| Seeding.InitDbIdempotent | app.py:64-80 | Running the seeding twice gives the same rows as running it once |
| Seeding.InitDbFromEmpty | app.py:64-80 | On empty tables the seeding creates rooms 1-3 with consecutive ids and the nine drawers in taxonomy order with consecutive ids |
| Text.Strip | app.py:95 | Stripping yields a slice of the input, with only whitespace cut from both ends; it is empty exactly when the input is all whitespace, and otherwise starts and ends with a non-space |
| Text.StripIdempotent | static/script.js:175 | Trimming a trimmed string changes nothing |
| Text.Join | app.py:95 | The first fragment, followed by the separator when there are more fragments, starts the joined text; `Text.SplitJoin` shows that splitting at spaces undoes the join |
| Text.SplitJoin | app.py:95 | Splitting a space-joined list of fragments without spaces gives back the fragments |
| Text.NumberedRoundTrip | static/script.js:240 | An item "<n>. <name>" parses back to n and the name |
| Listing.FolderNames | app.py:112 | The aggregated folder list of a drawer holds exactly the names of the folders referencing it |
| Listing.FolderNamesCount | app.py:112 | The aggregated list has as many entries as folder rows referencing the drawer: `json_agg` keeps repeated names |
| Listing.DrawersOf | app.py:114 | The left join pairs a room with exactly the drawers referencing it |
| Listing.RoomRows | app.py:110-118 | The query rows of one room are exactly one per drawer of that room, with its folder names; a room without drawers gives one row with a NULL drawer and an empty list |
| Listing.QueryRows | app.py:110-118 | The query returns exactly the rows that some room of the table produces |
| Listing.Fold | app.py:124-128 | The room and drawer of the last row are keys of the dictionary; `FoldRooms`, `FoldKeys` and `FoldValues` state the rest |
| Listing.FoldRooms | app.py:124-128 | The dictionary built from the rows has a key for exactly the rooms that appear in some row |
| Listing.FoldKeys | app.py:124-128 | Every inner key of the dictionary comes from a row for that room |
| Listing.FoldValues | app.py:124-128 | When no two rows share a room/drawer key, each row's folder list is the value stored under its key |
| Listing.QueryFunctional | app.py:116 | Grouping by room name and drawer name gives at most one row per key under the schema constraints |
| Listing.QueryDescribes | app.py:106-128 | For valid tables, the listing has a key for exactly the rooms. Each room maps exactly its drawers' names (or NULL when it has none) to the names of their folders (as a multiset) |
| Listing.ConfirmHierarchy | app.py:178-191 | Between listings taken before and after a confirm, rooms and drawer keys are equal. Only the confirmed drawer's list changes, gaining the name as the column stores it exactly when the insert happens |
| App.ExtrairTexto | app.py:92-98 | On an OCR failure the text is the "Erro no OCR: " prefix followed by the message. Otherwise it is the space-joined fragments with surrounding whitespace stripped, and empty exactly when they are all whitespace |
| App.ExtrairTextoWords | app.py:95 | For fragments that hold no whitespace, splitting the extracted text at spaces gives back the fragments |
| App.Payload | app.py:149 | The payload is exactly what follows the first comma of the data URL |
| App.FoldRows | app.py:124-128 | The loop building `salas_dict` produces the fold of the rows |
| App.Server.constructor | app.py:16-17 | The server starts with empty valid tables at the location "Sala 1"/"Gaveta 1" |
| App.Server.OnDatabase | app.py:16-17 | A server started on valid existing tables keeps them as they are, at the location "Sala 1"/"Gaveta 1" |
| App.Server.InitDb | app.py:30-84 | Initialisation leaves the tables as the seeding specification prescribes, keeps them valid, and does not move the location |
| App.Server.InsertDrawers | app.py:76-80 | The inner loop inserts the drawers of one room in order |
| App.Server.GetSalas | app.py:106-134 | The returned dictionary describes the tables, and the returned location is the current one |
| App.Server.SetSalaGaveta | app.py:136-142 | The location becomes the given pair, and the tables are untouched |
| App.Server.ProcessarImagem | app.py:144-167 | Success exactly when the data URL has a comma and the image decodes. On success, the answer holds the OCR text and the current location. Without a comma, the unpacking error is returned; on a decoding failure, its message |
| App.Server.ConfirmarNome | app.py:169-204 | Success exactly when no NUL occurs in the location or the name, the current pair names a drawer and the name fits VARCHAR(200). Then exactly one folder holding the stored value is appended and the message is "Adicionado: nome -> sala/gaveta". Otherwise the tables are unchanged and the error is, in the order the statements meet them, the NUL text for the location, the missing-row text, the NUL text for the name, or the too-long text. The location never changes |
| Client.ConfirmarNomeNaPagina | static/script.js:174-207 | The page sends the trimmed input, and nothing when it is blank. The server adds a folder exactly when no NUL occurs, the current pair names a drawer and the trimmed name has at most 200 characters. The refreshed listing keeps its rooms and drawer keys, and only the current drawer's list changes, gaining the trimmed name exactly when it was added |
| Client.GavetasPorSalaIsSeed | static/script.js:83-87 | The browser's drawer lists are the seed taxonomy of the server |
| Client.OpcoesDeGaveta | static/script.js:89-94 | The drawer options offered for a room are that room's list, and there are none for an unknown room |
| Client.OfferedPairsResolve | static/script.js:83-94 | Every room/drawer pair the selection boxes offer names a drawer once the server has been initialised |
| Client.NomeParaConfirmar | static/script.js:175-180 | The name sent is the trimmed input, with no leading or trailing whitespace; nothing is sent exactly when the input is blank |
| Client.NomeAparadoNaColuna | static/script.js:175-180 | A name that passed the browser guard is stored unchanged when it has at most 200 characters and refused otherwise: trimming removed the trailing spaces the column would cut |
| Client.NomeParaConfirmarStable | static/script.js:175 | A name that passed the guard passes it again unchanged |
| Client.ChavesDaSala | static/script.js:218 | A room counts no drawers exactly when its dictionary is empty, and at least one when it has any key |
| Client.PreenchidaSe | static/script.js:221-223 | For valid tables and the listing that describes them, a drawer counts as filled exactly when some folder row references it; the NULL key of a room without drawers never counts |
| Client.PreenchidasDaSala | static/script.js:222 | A room has no more filled drawers than drawer keys |
| Client.TotalGavetas | static/script.js:217-219 | The total is at least the drawer count of each room |
| Client.GavetasPreenchidas | static/script.js:221-223 | The filled count is at least the filled drawers of each room |
| Client.SomaSemSala | static/script.js:217-223 | A sum over the rooms is one room's term plus the sum over the others, whichever room is taken out |
| Client.PreenchidasAteTotal | static/script.js:217-223 | The progress counter never shows more filled drawers than drawers |
| Client.TotalPorSala | static/script.js:217-219 | The total is one room's number of drawer keys plus the total of the other rooms |
| Client.ContadorDasPastas | static/script.js:229 | For valid tables and the listing that describes them, the current drawer's counter exists exactly when the pair names a drawer, and equals the number of folder rows referencing it |
| Client.ConfirmTotal | static/script.js:217-219 | A confirm never changes the total number of drawers shown |
| Client.ConfirmPreenchidas | static/script.js:221-223 | A confirm never lowers the number of filled drawers shown |
| Client.ConfirmContador | static/script.js:229 | After a confirm that adds a folder, the current drawer's counter is one higher; otherwise it is unchanged |
| Client.ListaPastas | static/script.js:237-246 | The list shows one item "<i+1>. <name>" per folder, in order, each parsing back to its position and name; an empty drawer shows the placeholder |

## Left out

- The web layer is not modelled: Flask, CORS, `render_template` and `jsonify` (app.py:1-12, 101-103). Routes are methods, and their JSON answers are datatypes.
- The database connection and environment (app.py:20-27), `commit` and `close` are not modelled. Each route's statements act as one transaction on the `Store` value.
- The `CREATE TABLE IF NOT EXISTS` statements are not executed. The schema they create becomes the `Valid` invariant.
- `created_at` and `data_cadastro` timestamps are not modelled: they are clock values.
- EasyOCR, OpenCV and base64 decoding are not modelled. `extrair_texto` takes the OCR outcome as a parameter; `processar_imagem` takes the decode-and-recognise pipeline as a function parameter.
- Missing keys and JSON null in request bodies (`data['nome']`, `data['imagem']`, `data['sala']`) are not modelled: the inputs are strings.
- Exception texts other than these four are not modelled: the unpacking error, the missing row, the NUL character refused by the driver, and the over-long folder name.
- The VARCHAR(100) and VARCHAR(50) limits on room and drawer names are not modelled. Only the seeded names are ever written, and they fit.
- Concurrent requests racing on the `sala_atual`/`gaveta_atual` globals are not modelled: routes run one at a time.
- The DOM, `fetch`, alerts, the camera, the modal, keyboard handling and `carregarDados`/`atualizarInterface` rendering are not modelled. The browser part is modelled as functions over the listing dictionary.
- Folder order is not modelled: the listing and its lemmas give folder lists as multisets, because `json_agg` has no `ORDER BY`. `ORDER BY s.nome, g.nome` is also not modelled: the dictionary does not depend on row order.
- Listing.QueryDescribes: a room without drawers is keyed by `None`, not by the string "null" that JSON gives the NULL drawer; the browser counts it as one drawer key either way.
- App.Server.ConfirmarNome: the server does not reject blank names (app.py:173); the model follows the server, and the browser guard is `Client.NomeParaConfirmar`.
- App.Server.ConfirmarNome: a name with a NUL character or an over-long name is rejected before a folder id is drawn, so the folder counter is unchanged; the driver refuses the first while building the statement, and PostgreSQL checks the second when it folds the constant into the statement, before the id is drawn.
- Client.PreenchidasAteTotal: the totals `TotalGavetas` and `GavetasPreenchidas` are ghost sums over the rooms; the `reduce` order of `Object.values` is not modelled.
- `preprocessar_imagem` (app.py:87-90), and the other browser functions outside `confirmarNome` and `atualizarEstatisticas`, are not modelled: they are image filtering and user-interface wiring.

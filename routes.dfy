/** The two request handlers that drive the generator: the upload form
    (`index`), which checks the upload before any card is made and answers
    with the archive of the output folder, and the JSON endpoint
    (`api_create_card`), which makes the card for one record and answers
    with its file. HTTP, the saved upload and the spreadsheet parser are
    parameters: the file name the client sent, whether the output folder
    could be prepared, and the table the reader produced. */
module Routes {
  import opened Wrappers
  import opened Text
  import opened Names
  import opened Records
  import opened Batch
  import opened Archive

  /** OUTPUT_FOLDER, where the upload form's cards are written. */
  const OutputFolder := "web_cards"

  /** The reader pandas is asked to use for an upload. */
  datatype Reader = Excel | Csv

  /** `read_excel` for a name ending in ".xlsx" in any case, `read_csv`
      otherwise. */
  function ReaderFor(filename: string): Reader {
    if EndsWith(Lower(filename), ".xlsx") then Excel else Csv
  }

  /** When the last dot of `t` is at position `k`, `t` ends with a dot and a
      dot-free word `w` exactly when `w` is what follows position `k`. */
  lemma EndsWithLastExtension(t: string, k: nat, w: string)
    requires k < |t| && t[k] == '.' && '.' !in t[k + 1..] && '.' !in w
    ensures EndsWith(t, "." + w) <==> t[k + 1..] == w
  {
    var d := "." + w;
    if t[k + 1..] == w {
      assert t[k..] == d;
    }
    if EndsWith(t, d) {
      assert t[|t| - |d|] == '.';
    }
  }

  /** For an accepted upload the reader agrees with the extension test: the
      Excel reader exactly when the last extension is "xlsx", the CSV reader
      exactly when it is "csv", in any case. */
  lemma AcceptedUploadReader(f: string)
    requires AllowedFile(f)
    ensures var e := Lower(Extension(f).value);
            && (ReaderFor(f) == Excel <==> e == "xlsx")
            && (ReaderFor(f) == Csv <==> e == "csv")
  {
    var ext := Extension(f).value;
    var k := |f| - |ext| - 1;
    var lf, le := Lower(f), Lower(ext);
    assert lf[k + 1..] == le by {
      assert f[k + 1..] == ext;
    }
    assert '.' !in le by {
      forall j | 0 <= j < |ext| ensures le[j] != '.' {
        assert ext[j] != '.';
      }
    }
    assert "." + "xlsx" == ".xlsx";
    EndsWithLastExtension(lf, k, "xlsx");
  }

  // ---------------------------------------------------------------------
  // The upload form
  // ---------------------------------------------------------------------

  /** Why an upload is turned away; each comes with a flashed message and a
      redirect back to the form. */
  datatype UploadError =
    | NoFilePart          // 'No file part'
    | NoFilename          // 'No filename provided for upload'
    | NotATemplate        // 'PLEASE DOWNLOAD THE TEMPLATE'
    | FolderNotPrepared   // 'Error preparing output folder'
    | UnreadableFile      // 'Error reading file'
    | TooFewColumns       // 'File must have at least 3 columns'
    | GenerationFailed(failure: Failure)  // 'Error generating cards: ...'

  /** What pandas produces: every row as wide as the header. */
  predicate Rectangular(t: Table) {
    forall j :: 0 <= j < |t.rows| ==> |t.rows[j]| == |t.columns|
  }

  /** The checks `index` makes before generating, in order. `file` is the
      name of the uploaded file part, if there is one; `prepared` says
      whether the output folder could be emptied and re-created; `parse`
      gives the table a reader produced, or None when reading raised. */
  function CheckUpload(file: Option<string>, prepared: bool, parse: Reader -> Option<Table>): (r: Result<Table, UploadError>)
    ensures r == Failure(NoFilePart) <==> file.None?
    ensures r == Failure(NoFilename) <==> file == Some([])
    ensures r == Failure(NotATemplate) <==> file.Some? && file.value != [] && !AllowedFile(file.value)
    ensures r == Failure(FolderNotPrepared) <==> file.Some? && AllowedFile(file.value) && !prepared
    ensures r == Failure(UnreadableFile) <==>
            file.Some? && AllowedFile(file.value) && prepared && parse(ReaderFor(file.value)).None?
    ensures r == Failure(TooFewColumns) <==>
            file.Some? && AllowedFile(file.value) && prepared && parse(ReaderFor(file.value)).Some? &&
            |parse(ReaderFor(file.value)).value.columns| < 3
    ensures r.Success? ==> file.Some? && r == Success(parse(ReaderFor(file.value)).value) && |r.value.columns| >= 3
    ensures r.Failure? ==> !r.error.GenerationFailed?
  {
    match file
    case None => Failure(NoFilePart)
    case Some(name) =>
      if name == [] then Failure(NoFilename)
      else if !AllowedFile(name) then Failure(NotATemplate)
      else if !prepared then Failure(FolderNotPrepared)
      else
        match parse(ReaderFor(name))
        case None => Failure(UnreadableFile)
        case Some(t) => if |t.columns| < 3 then Failure(TooFewColumns) else Success(t)
  }

  /** `os.listdir` of a folder holding the files `files`: every name once,
      in an order the file system chooses. */
  method ListDir(files: map<string, nat>) returns (names: seq<string>)
    ensures |names| == |files|
    ensures forall k :: 0 <= k < |names| ==> names[k] in files
    ensures forall a, b :: 0 <= a < b < |names| ==> names[a] != names[b]
    ensures forall f :: f in files ==> f in names
  {
    names := [];
    var left := files.Keys;
    while left != {}
      invariant left <= files.Keys
      invariant forall k :: 0 <= k < |names| ==> names[k] in files && names[k] !in left
      invariant forall a, b :: 0 <= a < b < |names| ==> names[a] != names[b]
      invariant |names| + |left| == |files|
      invariant forall f :: f in files ==> f in left || f in names
      decreases |left|
    {
      var f :| f in left;
      names := names + [f];
      left := left - {f};
    }
  }

  /** The archive of an output folder holding only card files: one member
      per file, stored under the file's name and read from its path in the
      folder. */
  lemma ArchiveOfCardFolder(folder: string, files: map<string, nat>, names: seq<string>)
    requires forall f :: f in files ==> EndsWith(f, ".png") && '/' !in f && f != []
    requires |names| == |files|
    requires forall k :: 0 <= k < |names| ==> names[k] in files
    requires forall f :: f in files ==> f in names
    ensures var entries := DirEntries(folder, names);
            && |entries| == |files|
            && (forall k :: 0 <= k < |entries| ==>
                  entries[k].arcname in files && entries[k].source == JoinPath(folder, entries[k].arcname))
            && (forall f :: f in files ==> exists k :: 0 <= k < |entries| && entries[k].arcname == f)
  {
    forall k | 0 <= k < |names| ensures IsPngName(names[k]) {
      PngSuffixIsPngName(names[k]);
    }
    AllPngArchivedInOrder(folder, names);
    var entries := DirEntries(folder, names);
    forall f | f in files ensures exists k :: 0 <= k < |entries| && entries[k].arcname == f {
      var k :| 0 <= k < |names| && names[k] == f;
      assert entries[k] == EntryFor(folder, names[k]);
    }
  }

  /** A POST of the upload form. When a check fails nothing is generated
      and nothing is sent. Otherwise the cards are generated into
      OUTPUT_FOLDER: if a row raises, the notifications of the rows before
      it have been sent and the upload fails; if not, the answer is the
      archive of the folder, one member per card file. */
  method HandleUpload(file: Option<string>, prepared: bool, parse: Reader -> Option<Table>,
                      isFile: string -> bool, canSave: string -> bool)
      returns (response: Result<seq<Entry>, UploadError>, sent: seq<Notification>)
    requires forall r :: parse(r).Some? ==> Rectangular(parse(r).value)
    ensures var checked := CheckUpload(file, prepared, parse);
            checked.Failure? ==> response == Failure(checked.error) && sent == []
    ensures var checked := CheckUpload(file, prepared, parse);
            checked.Success? ==>
              Readable(checked.value.rows) &&
              var s := Run(Env(OutputFolder, isFile, canSave), checked.value.rows);
              && sent == s.outbox
              && (s.status.Aborted? ==> response == Failure(GenerationFailed(s.status.failure)))
              && (s.status.Completed? ==> response.Success?)
              && (response.Success? ==>
                    && |response.value| == |s.files|
                    && (forall k :: 0 <= k < |response.value| ==>
                          response.value[k].arcname in s.files &&
                          response.value[k].source == JoinPath(OutputFolder, response.value[k].arcname))
                    && (forall f :: f in s.files ==>
                          exists k :: 0 <= k < |response.value| && response.value[k].arcname == f))
  {
    var checked := CheckUpload(file, prepared, parse);
    if checked.Failure? {
      return Failure(checked.error), [];
    }
    var table := checked.value;
    var env := Env(OutputFolder, isFile, canSave);
    var files, outbox, status := GenerateCards(env, table);
    sent := outbox;
    if status.Aborted? {
      return Failure(GenerationFailed(status.failure)), sent;
    }
    var names := ListDir(files);
    var entries := ZipFolder([WalkDir(OutputFolder, names)]);
    SingleDirectory(WalkDir(OutputFolder, names));
    FilesArePng(env, table.rows);
    ArchiveOfCardFolder(OutputFolder, files, names);
    response := Success(entries);
  }

  // ---------------------------------------------------------------------
  // The JSON endpoint
  // ---------------------------------------------------------------------

  /** Why the endpoint does not answer with a card: 400 for the first two,
      an unhandled exception (500) for a raising row, and 500 'Card image
      not generated'. */
  datatype ApiError = NoPayload | MissingFields | GenerationError(failure: Failure) | NotGenerated

  /** A JSON field that is present and non-empty. */
  predicate Given(payload: map<string, string>, key: string) {
    key in payload && payload[key] != []
  }

  /** `all([name, Card, date])`. */
  predicate AllGiven(payload: map<string, string>) {
    Given(payload, "Name") && Given(payload, "Card") && Given(payload, "Date")
  }

  /** The single row the endpoint builds: Name, Card and Date, in that order. */
  function PayloadRow(payload: map<string, string>): (row: Row)
    requires AllGiven(payload)
    ensures |row| == 3
    ensures ExtractRecord(row) == Record(payload["Name"], payload["Card"], payload["Date"], "no", None)
  {
    [Some(payload["Name"]), Some(payload["Card"]), Some(payload["Date"])]
  }

  /** `api_create_card` with a JSON body `payload` (None when there is
      none) and a fresh, empty temporary folder `folder`. The answer is the
      path of the card file sent back. */
  method ApiCreateCard(payload: Option<map<string, string>>, folder: string,
                       isFile: string -> bool, canSave: string -> bool)
      returns (r: Result<string, ApiError>)
    ensures payload.None? || payload == Some(map[]) <==> r == Failure(NoPayload)
    ensures r == Failure(MissingFields) <==> payload.Some? && payload.value != map[] && !AllGiven(payload.value)
    ensures r != Failure(NotGenerated)
    ensures r.Success? || r.error.GenerationError? ==> payload.Some? && AllGiven(payload.value)
    ensures payload.Some? && AllGiven(payload.value) ==>
            (r.Failure? <==> Run(Env(folder, isFile, canSave), [PayloadRow(payload.value)]).status.Aborted?)
    ensures r.Success? ==>
            var p := payload.value;
            var primary := JoinPath(folder, SanitizeFilename(p["Name"]) + "_" + SanitizeFilename(p["Card"]) + ".png");
            && (canSave(primary) ==> r.value == primary)
            && (!canSave(primary) ==> r.value == JoinPath(folder, FallbackFileName(0)))
  {
    if payload.None? || payload.value == map[] {
      return Failure(NoPayload);
    }
    var data := payload.value;
    if !AllGiven(data) {
      return Failure(MissingFields);
    }
    var name, card := data["Name"], data["Card"];
    var row := PayloadRow(data);
    var env := Env(folder, isFile, canSave);
    var files, outbox, status := GenerateCards(env, Table(["Name", "Card", "Date"], [row]));
    if status.Aborted? {
      return Failure(GenerationError(status.failure));
    }
    var cardName := SanitizeFilename(name) + "_" + SanitizeFilename(card) + ".png";
    ghost var saved := OneRowRun(env, row);
    assert files == map[saved := 0];
    if cardName in files {
      return Success(JoinPath(folder, cardName));
    }
    var names := ListDir(files);
    assert names == [saved];
    var found := FirstPng(names);
    match found {
      case None =>
        // unreachable: the one file the row left ends in ".png"
        assert false;
        return Failure(NotGenerated);
      case Some(k) =>
        return Success(JoinPath(folder, names[k]));
    }
  }

  /** The fallback search of `api_create_card`: the position of the first
      listed name ending in ".png", compared as written (no lower-casing),
      or None when there is none. */
  method FirstPng(names: seq<string>) returns (found: Option<nat>)
    ensures found.None? <==> forall j :: 0 <= j < |names| ==> !EndsWith(names[j], ".png")
    ensures found.Some? ==> found.value < |names| && EndsWith(names[found.value], ".png") &&
                            forall j :: 0 <= j < found.value ==> !EndsWith(names[j], ".png")
  {
    var k := 0;
    while k < |names|
      invariant 0 <= k <= |names|
      invariant forall j :: 0 <= j < k ==> !EndsWith(names[j], ".png")
    {
      if EndsWith(names[k], ".png") {
        return Some(k);
      }
      k := k + 1;
    }
    return None;
  }

  /** A completed run over the endpoint's single row leaves one file: the
      card under its primary name when that path can be written, otherwise
      under `card_0.png`. */
  lemma OneRowRun(env: Env, row: Row) returns (saved: string)
    requires |row| >= 3
    ensures Readable([row])
    ensures Run(env, [row]).status.Completed? ==>
              var primary := PrimaryFileName(ExtractRecord(row));
              && Run(env, [row]).files == map[saved := 0]
              && EndsWith(saved, ".png")
              && (env.canSave(JoinPath(env.folder, primary)) ==> saved == primary)
              && (!env.canSave(JoinPath(env.folder, primary)) ==> saved == FallbackFileName(0) && saved != primary)
  {
    saved := "";
    var o := RenderRow(env, 0, row);
    var outs := Outcomes(env, [row]);
    assert [row][..0] == [];
    assert outs == [o];
    assert outs[..0] == [];
    assert Fold(outs) == Apply(Fold([]), 0, o);
    RenderRowCases(env, 0, row);
    if o.Saved? {
      saved := o.file;
    }
  }

  /** The endpoint's table has no e-mail column: a card made through it is
      never mailed, and it is drawn as a regular card. */
  lemma ApiSendsNoMail(env: Env, payload: map<string, string>)
    requires AllGiven(payload)
    ensures Readable([PayloadRow(payload)])
    ensures Run(env, [PayloadRow(payload)]).outbox == []
    ensures !IsVip(ExtractRecord(PayloadRow(payload)))
  {
    var rows := [PayloadRow(payload)];
    RunOutbox(env, rows);
    assert rows[..0] == [];
    assert rows[..1] == rows;
    assert Mails(env.folder, rows) == Mails(env.folder, []) + MailList(MailFor(env.folder, ExtractRecord(rows[0])));
  }
}

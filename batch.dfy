/** The row loop of `generate_cards_from_df` as a state machine. The state
    is the set of card files in the output folder, each mapped to the index
    of the row that last wrote it, and the notifications handed to the mail
    sender, in row order. Which files exist and which saves succeed are
    parameters of the run. A missing fallback template or a failed fallback
    save raises, which ends the batch at that row. */
module Batch {
  import opened Wrappers
  import opened Text
  import opened Names
  import opened Records

  /** What the loop sees of the file system: the output folder, whether a
      path names an existing file, and whether saving a card under a path
      succeeds. */
  datatype Env = Env(folder: string, isFile: string -> bool, canSave: string -> bool)

  /** Why a batch stopped: the template it fell back to does not exist, or
      the save under the fallback name failed too. */
  datatype Failure = TemplateMissing(path: string) | SaveFailed(path: string)

  datatype Status = Completed | Aborted(row: nat, failure: Failure)

  /** `files` maps a file name inside the output folder to the index of the
      row whose card it holds; `outbox` lists the notifications sent. */
  datatype BatchState = BatchState(files: map<string, nat>, outbox: seq<Notification>, status: Status)

  /** A parsed spreadsheet: the column names and one cell per column in
      every row. */
  datatype Table = Table(columns: seq<string>, rows: seq<Row>)

  /** Rows whose first three cells can be bound. */
  predicate Readable(rows: seq<Row>) {
    forall j :: 0 <= j < |rows| ==> |rows[j]| >= 3
  }

  /** A table the loop accepts: at least three columns, every row as wide
      as the header. */
  predicate WellFormed(t: Table) {
    |t.columns| >= 3 && forall j :: 0 <= j < |t.rows| ==> |t.rows[j]| == |t.columns|
  }

  /** The outcome of one iteration: the card saved under `file` and the
      notification sent, if any; or the exception that ends the batch. */
  datatype Outcome = Saved(file: string, mail: Option<Notification>) | RowFailed(failure: Failure)

  /** The body of the loop for row `i`: bind the cells, pick the template
      (raising when not even TEMPLATE_IMAGE exists), save the card under the
      primary name or else under `card_{i}.png` (raising when that save
      fails too), and prepare the notification. Whatever it saves is a
      `.png` file directly inside the output folder. */
  function RenderRow(env: Env, i: nat, row: Row): (o: Outcome)
    requires |row| >= 3
    ensures o.Saved? ==> EndsWith(o.file, ".png") && '/' !in o.file && o.file != []
  {
    var rec := ExtractRecord(row);
    var template := TemplateFor(rec, env.isFile);
    if !env.isFile(template) then RowFailed(TemplateMissing(template))
    else
      var primary := PrimaryFileName(rec);
      var fallback := FallbackFileName(i);
      if env.canSave(JoinPath(env.folder, primary)) then Saved(primary, MailFor(env.folder, rec))
      else if env.canSave(JoinPath(env.folder, fallback)) then Saved(fallback, MailFor(env.folder, rec))
      else RowFailed(SaveFailed(JoinPath(env.folder, fallback)))
  }

  /** The three ways an iteration ends. It raises on a missing template
      exactly when neither the chosen template nor TEMPLATE_IMAGE exists. It
      raises on saving exactly when a template was found and neither the
      primary nor the fallback path can be written. Otherwise it saves under
      the primary name when that path can be written, else under the
      fallback name. A saved row sends the record's notification, whichever
      name was used. */
  lemma RenderRowCases(env: Env, i: nat, row: Row)
    requires |row| >= 3
    ensures var o := RenderRow(env, i, row);
            var rec := ExtractRecord(row);
            var primary := JoinPath(env.folder, PrimaryFileName(rec));
            var fallback := JoinPath(env.folder, FallbackFileName(i));
            && (o == RowFailed(TemplateMissing(DefaultTemplate)) <==>
                  !env.isFile(ChosenTemplate(rec)) && !env.isFile(DefaultTemplate))
            && (o == RowFailed(SaveFailed(fallback)) <==>
                  env.isFile(TemplateFor(rec, env.isFile)) && !env.canSave(primary) && !env.canSave(fallback))
            && (o.Saved? <==> env.isFile(TemplateFor(rec, env.isFile)) && (env.canSave(primary) || env.canSave(fallback)))
            && (o.Saved? && env.canSave(primary) ==> o.file == PrimaryFileName(rec))
            && (o.Saved? && !env.canSave(primary) ==> o.file == FallbackFileName(i))
            && (o.Saved? ==> o.mail == MailFor(env.folder, rec))
  {
  }

  /** Whether outcome `o` wrote a card under file name `f`. */
  predicate Wrote(o: Outcome, f: string) { o.Saved? && o.file == f }

  function MailList(m: Option<Notification>): seq<Notification> {
    match m
    case Some(n) => [n]
    case None => []
  }

  /** The state after row `i`, with outcome `o`, from state `s`. */
  function Apply(s: BatchState, i: nat, o: Outcome): BatchState {
    match o
    case Saved(f, m) => BatchState(s.files[f := i], s.outbox + MailList(m), Completed)
    case RowFailed(e) => BatchState(s.files, s.outbox, Aborted(i, e))
  }

  /** The state after rows with outcomes `outs` (row `j` having outcome
      `outs[j]`), starting from an empty output folder. Once a row has
      failed, later rows are not visited. */
  function Fold(outs: seq<Outcome>): (s: BatchState)
    ensures forall f :: f in s.files ==> s.files[f] < |outs|
    ensures s.status.Aborted? ==> s.status.row < |outs|
  {
    if outs == [] then BatchState(map[], [], Completed)
    else
      var s := Fold(outs[..|outs| - 1]);
      if s.status.Aborted? then s else Apply(s, |outs| - 1, outs[|outs| - 1])
  }

  /** The outcome of every row, each row rendered on its own. */
  function Outcomes(env: Env, rows: seq<Row>): (os: seq<Outcome>)
    requires Readable(rows)
    ensures |os| == |rows|
  {
    if rows == [] then []
    else Outcomes(env, rows[..|rows| - 1]) + [RenderRow(env, |rows| - 1, rows[|rows| - 1])]
  }

  /** Row `j`'s outcome is that row rendered with its own index. */
  lemma {:induction false} OutcomeAt(env: Env, rows: seq<Row>, j: nat)
    requires Readable(rows) && j < |rows|
    ensures Outcomes(env, rows)[j] == RenderRow(env, j, rows[j])
  {
    if j < |rows| - 1 {
      var init := rows[..|rows| - 1];
      OutcomeAt(env, init, j);
    }
  }

  /** The outcomes of a prefix of the rows are the prefix of the outcomes. */
  lemma {:induction false} OutcomesPrefix(env: Env, rows: seq<Row>, n: nat)
    requires Readable(rows) && n <= |rows|
    ensures Readable(rows[..n]) && Outcomes(env, rows[..n]) == Outcomes(env, rows)[..n]
    decreases |rows|
  {
    if n < |rows| {
      var init := rows[..|rows| - 1];
      assert init[..n] == rows[..n];
      OutcomesPrefix(env, init, n);
    } else {
      assert rows[..n] == rows;
    }
  }

  /** The state after the loop has run over `rows`. */
  function Run(env: Env, rows: seq<Row>): BatchState
    requires Readable(rows)
  {
    Fold(Outcomes(env, rows))
  }

  /** How many rows were processed to the end. */
  function Processed(s: BatchState, n: nat): nat {
    if s.status.Completed? then n else s.status.row
  }

  /** `generate_cards_from_df(df, env.folder)` on an empty output folder:
      the loop over the rows, one card file and at most one notification per
      row, stopping at the first row that raises. */
  method GenerateCards(env: Env, table: Table) returns (files: map<string, nat>, outbox: seq<Notification>, status: Status)
    requires WellFormed(table)
    ensures Readable(table.rows)
    ensures BatchState(files, outbox, status) == Run(env, table.rows)
  {
    var rows := table.rows;
    files, outbox, status := map[], [], Completed;
    var i := 0;
    while i < |rows| && status == Completed
      invariant 0 <= i <= |rows|
      invariant BatchState(files, outbox, status) == Fold(Outcomes(env, rows)[..i])
    {
      var o := RenderRow(env, i, rows[i]);
      RowStep(env, rows, i);
      match o {
        case Saved(name, mail) =>
          files := files[name := i];
          outbox := outbox + MailList(mail);
        case RowFailed(e) =>
          status := Aborted(i, e);
      }
      i := i + 1;
    }
    LoopExit(env, rows, i);
  }

  /** One iteration of the loop: from the state after rows `0..i-1`, the
      outcome of row `i` gives the state after rows `0..i`. */
  lemma RowStep(env: Env, rows: seq<Row>, i: nat)
    requires Readable(rows) && i < |rows|
    requires Fold(Outcomes(env, rows)[..i]).status.Completed?
    ensures Fold(Outcomes(env, rows)[..i + 1]) == Apply(Fold(Outcomes(env, rows)[..i]), i, RenderRow(env, i, rows[i]))
  {
    OutcomeAt(env, rows, i);
    FoldSnoc(Outcomes(env, rows), i);
  }

  /** The loop ends after the last row, or after a row that raised; either
      way its state is that of the whole run. */
  lemma LoopExit(env: Env, rows: seq<Row>, i: nat)
    requires Readable(rows) && i <= |rows|
    requires i == |rows| || Fold(Outcomes(env, rows)[..i]).status.Aborted?
    ensures Fold(Outcomes(env, rows)[..i]) == Run(env, rows)
  {
    var outs := Outcomes(env, rows);
    if i == |rows| {
      assert outs[..i] == outs;
    } else {
      assert outs[..i] + outs[i..] == outs;
      AbortStopsBatch(outs[..i], outs[i..]);
    }
  }

  // ---------------------------------------------------------------------
  // Properties of a run
  // ---------------------------------------------------------------------

  /** One more row: the state after rows `0..i` from the state after rows
      `0..i-1`. */
  lemma FoldSnoc(outs: seq<Outcome>, i: nat)
    requires i < |outs|
    ensures Fold(outs[..i + 1]) == if Fold(outs[..i]).status.Aborted? then Fold(outs[..i]) else Apply(Fold(outs[..i]), i, outs[i])
  {
    assert outs[..i + 1][..i] == outs[..i];
  }

  /** Rows after a failing row change nothing. */
  lemma {:induction false} AbortStopsBatch(outs: seq<Outcome>, more: seq<Outcome>)
    requires Fold(outs).status.Aborted?
    ensures Fold(outs + more) == Fold(outs)
    decreases |more|
  {
    if more != [] {
      var all := outs + more;
      assert all[..|all| - 1] == outs + more[..|more| - 1];
      AbortStopsBatch(outs, more[..|more| - 1]);
    } else {
      assert outs + more == outs;
    }
  }

  /** A batch completes exactly when every row is saved; when it stops, it
      stops at the first row that fails, with that row's exception. */
  lemma {:induction false} FoldStatus(outs: seq<Outcome>)
    ensures Fold(outs).status.Completed? <==> forall j :: 0 <= j < |outs| ==> outs[j].Saved?
    ensures var st := Fold(outs).status;
            st.Aborted? ==>
              && outs[st.row] == RowFailed(st.failure)
              && forall j :: 0 <= j < st.row ==> outs[j].Saved?
  {
    if outs != [] {
      var init := outs[..|outs| - 1];
      FoldStatus(init);
      assert forall j :: 0 <= j < |init| ==> init[j] == outs[j];
    }
  }

  /** Every file in the output folder was written by the processed row it
      is mapped to. */
  lemma {:induction false} FoldFilesWritten(outs: seq<Outcome>)
    ensures forall f :: f in Fold(outs).files ==>
              Fold(outs).files[f] < Processed(Fold(outs), |outs|) && Wrote(outs[Fold(outs).files[f]], f)
  {
    if outs != [] {
      var init := outs[..|outs| - 1];
      var i := |init|;
      FoldFilesWritten(init);
      assert forall j :: 0 <= j < |init| ==> init[j] == outs[j];
      var s := Fold(init);
      var s' := Fold(outs);
      assert s' == if s.status.Aborted? then s else Apply(s, i, outs[i]);
      if s.status.Completed? && outs[i].Saved? {
        forall f | f in s'.files ensures s'.files[f] < |outs| && Wrote(outs[s'.files[f]], f) {
          if f != outs[i].file {
            assert s'.files[f] == s.files[f];
          }
        }
      }
    }
  }

  /** Every processed row's card name is in the output folder, mapped to
      that row or to a later row that wrote the same name. */
  lemma {:induction false} FoldKeepsProcessed(outs: seq<Outcome>)
    ensures forall j :: 0 <= j < Processed(Fold(outs), |outs|) ==>
              outs[j].Saved? && outs[j].file in Fold(outs).files && Fold(outs).files[outs[j].file] >= j
  {
    if outs != [] {
      var init := outs[..|outs| - 1];
      FoldKeepsProcessed(init);
      assert forall j :: 0 <= j < |init| ==> init[j] == outs[j];
    }
  }

  /** The row a file is mapped to is the last processed row that wrote it. */
  lemma {:induction false} FoldLastWriter(outs: seq<Outcome>)
    ensures forall f, k :: f in Fold(outs).files && Fold(outs).files[f] < k < Processed(Fold(outs), |outs|) ==>
              !Wrote(outs[k], f)
  {
    if outs != [] {
      var init := outs[..|outs| - 1];
      var i := |init|;
      FoldLastWriter(init);
      assert forall j :: 0 <= j < |init| ==> init[j] == outs[j];
      var s := Fold(init);
      var s' := Fold(outs);
      assert s' == if s.status.Aborted? then s else Apply(s, i, outs[i]);
      if s.status.Completed? && outs[i].Saved? {
        forall f, k | f in s'.files && s'.files[f] < k < |outs| ensures !Wrote(outs[k], f) {
          assert f != outs[i].file;
          assert s'.files[f] == s.files[f];
        }
      }
    }
  }

  /** Two processed rows that produce the same file name leave only the
      later row's card: names are not made unique. */
  lemma OverwriteLosesEarlierCard(outs: seq<Outcome>, j: nat, k: nat, f: string)
    requires j < k < Processed(Fold(outs), |outs|)
    requires Wrote(outs[j], f) && Wrote(outs[k], f)
    ensures f in Fold(outs).files && Fold(outs).files[f] != j
  {
    FoldKeepsProcessed(outs);
  }

  /** A completed run whose rows all produce different file names leaves
      exactly one file per row. */
  lemma {:induction false} DistinctNamesOneFilePerRow(outs: seq<Outcome>)
    requires Fold(outs).status.Completed?
    requires forall j, k :: 0 <= j < k < |outs| && outs[j].Saved? && outs[k].Saved? ==> outs[j].file != outs[k].file
    ensures |Fold(outs).files| == |outs|
  {
    if outs != [] {
      var init := outs[..|outs| - 1];
      var i := |init|;
      assert forall j :: 0 <= j < |init| ==> init[j] == outs[j];
      var s := Fold(init);
      assert s.status.Completed? && outs[i].Saved?;
      assert Fold(outs) == Apply(s, i, outs[i]);
      DistinctNamesOneFilePerRow(init);
      var f := outs[i].file;
      FoldFilesWritten(init);
      assert f !in s.files;
    }
  }

  /** Every card file of a run is a `.png` file directly inside the output
      folder. */
  lemma FilesArePng(env: Env, rows: seq<Row>)
    requires Readable(rows)
    ensures forall f :: f in Run(env, rows).files ==> EndsWith(f, ".png") && '/' !in f && f != []
  {
    var outs := Outcomes(env, rows);
    FoldFilesWritten(outs);
    forall f | f in Fold(outs).files ensures EndsWith(f, ".png") && '/' !in f && f != [] {
      OutcomeAt(env, rows, Fold(outs).files[f]);
    }
  }

  // ---------------------------------------------------------------------
  // Notifications
  // ---------------------------------------------------------------------

  /** The notifications of rows with outcomes `outs`, in row order. */
  function SentMails(outs: seq<Outcome>): seq<Notification> {
    if outs == [] then []
    else SentMails(outs[..|outs| - 1]) + (if outs[|outs| - 1].Saved? then MailList(outs[|outs| - 1].mail) else [])
  }

  /** The notifications of a run are those of the rows processed to the
      end, in row order. */
  lemma {:induction false} FoldOutbox(outs: seq<Outcome>)
    ensures var s := Fold(outs);
            var n := Processed(s, |outs|);
            n <= |outs| && s.outbox == SentMails(outs[..n])
  {
    if outs != [] {
      var init := outs[..|outs| - 1];
      FoldOutbox(init);
      var s := Fold(init);
      if s.status.Aborted? {
        assert outs[..s.status.row] == init[..s.status.row];
      } else {
        assert outs[..|outs|] == outs;
        assert init[..|init|] == init;
      }
    }
  }

  /** The notifications for `rows`, in row order: one per row with a
      non-blank e-mail cell. */
  function Mails(folder: string, rows: seq<Row>): (ms: seq<Notification>)
    requires Readable(rows)
    ensures |ms| <= |rows|
  {
    if rows == [] then []
    else Mails(folder, rows[..|rows| - 1]) + MailList(MailFor(folder, ExtractRecord(rows[|rows| - 1])))
  }

  lemma {:induction false} SentMailsOfSavedRows(env: Env, rows: seq<Row>)
    requires Readable(rows)
    requires forall j :: 0 <= j < |rows| ==> Outcomes(env, rows)[j].Saved?
    ensures SentMails(Outcomes(env, rows)) == Mails(env.folder, rows)
  {
    if rows != [] {
      var init := rows[..|rows| - 1];
      var outs := Outcomes(env, rows);
      assert outs == Outcomes(env, init) + [RenderRow(env, |init|, rows[|init|])];
      assert outs[..|init|] == Outcomes(env, init);
      SentMailsOfSavedRows(env, init);
      RenderRowCases(env, |init|, rows[|init|]);
    }
  }

  /** The notifications sent are those of the processed rows, whatever
      happened to the files: each names the primary file path as its
      attachment, even when the card was saved under the fallback name. */
  lemma RunOutbox(env: Env, rows: seq<Row>)
    requires Readable(rows)
    ensures var s := Run(env, rows);
            var n := Processed(s, |rows|);
            n <= |rows| && s.outbox == Mails(env.folder, rows[..n])
  {
    var outs := Outcomes(env, rows);
    var n := Processed(Fold(outs), |rows|);
    FoldOutbox(outs);
    FoldKeepsProcessed(outs);
    OutcomesPrefix(env, rows, n);
    SentMailsOfSavedRows(env, rows[..n]);
  }

  /** Which save succeeded, and under which name, does not change the
      notifications of two completed runs over the same folder. */
  lemma OutboxIgnoresStorage(env1: Env, env2: Env, rows: seq<Row>)
    requires Readable(rows) && env1.folder == env2.folder
    requires Run(env1, rows).status.Completed? && Run(env2, rows).status.Completed?
    ensures Run(env1, rows).outbox == Run(env2, rows).outbox
  {
    RunOutbox(env1, rows);
    RunOutbox(env2, rows);
  }
}

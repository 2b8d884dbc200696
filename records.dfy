/** The per-row decisions of `generate_cards_from_df`: how a table row
    becomes a record (columns bound by position, absent cells defaulted),
    which background template and which e-mail subject the record gets,
    the name of the file its card is saved under, and the notification
    sent for it. */
module Records {
  import opened Wrappers
  import opened Text
  import opened Names

  /** One table cell: its text (`str` of the value), or None when the cell
      is absent or NaN, or cannot be read from the row tuple. */
  type Cell = Option<string>

  /** One table row, one cell per column, in column order. */
  type Row = seq<Cell>

  /** The normalised view of one row. `vipStatus` is the stripped,
      lower-cased VIP cell ("no" by default); `email` is the stripped
      e-mail cell, or None. */
  datatype Record = Record(name: string, card: string, date: string, vipStatus: string, email: Option<string>)

  const UnknownText := "Unknown"

  function CellOr(c: Cell, default: string): string {
    match c
    case Some(v) => v
    case None => default
  }

  /** The record read from a row of a table with at least three columns:
      column 0 is the name, 1 the card number, 2 the date, 3 (if the table
      has it) the VIP flag and 4 (if the table has it) the e-mail address. */
  function ExtractRecord(row: Row): (r: Record)
    requires |row| >= 3
    ensures r.name == if row[0].Some? then row[0].value else UnknownText
    ensures r.card == if row[1].Some? then row[1].value else UnknownText
    ensures r.date == if row[2].Some? then row[2].value else ""
    ensures r.vipStatus != "no" ==> |row| > 3 && row[3].Some?
    ensures r.email.Some? <==> |row| > 4 && row[4].Some?
    ensures r.email.Some? ==> Filter(NotSpace, r.email.value) == Filter(NotSpace, row[4].value)
  {
    var vip := if |row| > 3 && row[3].Some? then Lower(Strip(row[3].value)) else "no";
    Record(
      CellOr(row[0], UnknownText),
      CellOr(row[1], UnknownText),
      CellOr(row[2], ""),
      vip,
      if |row| > 4 && row[4].Some? then Some(Strip(row[4].value)) else None)
  }

  /** The e-mail address is the fifth cell with the whitespace around it
      removed: a cell holding an address padded with whitespace gives
      exactly that address, and a cell of whitespace only gives "". */
  lemma EmailIsStrippedCell(row: Row, before: string, address: string, after: string)
    requires |row| >= 5 && row[4] == Some(before + address + after)
    requires AllSpace(before) && AllSpace(after)
    requires address == [] || (!IsSpace(address[0]) && !IsSpace(address[|address| - 1]))
    ensures ExtractRecord(row).email == Some(address)
  {
    if address == [] {
      var blank := before + after;
      assert before + address + after == blank;
      assert AllSpace(blank);
      FilterDropsAll(NotSpace, blank);
    } else {
      StripPadded(before, address, after);
    }
  }

  /** Only the first five columns are read; any further column is ignored. */
  lemma ExtractIgnoresExtraColumns(row: Row, extra: Row)
    requires |row| >= 5
    ensures ExtractRecord(row + extra) == ExtractRecord(row)
  {
  }

  /** A table with only three columns has no VIP and no e-mail column: every
      row is regular and gets no notification. */
  lemma ThreeColumnsMeansRegularWithoutEmail(row: Row)
    requires |row| == 3
    ensures ExtractRecord(row).vipStatus == "no" && ExtractRecord(row).email == None
  {
  }

  // ---------------------------------------------------------------------
  // VIP status, template and subject
  // ---------------------------------------------------------------------

  predicate IsVip(rec: Record) { rec.vipStatus == "yes" }

  /** A row is VIP exactly when the table has a fourth column whose cell,
      stripped and lower-cased, reads "yes". */
  lemma VipFromFourthColumn(row: Row)
    requires |row| >= 3
    ensures IsVip(ExtractRecord(row)) <==> |row| > 3 && row[3].Some? && Lower(Strip(row[3].value)) == "yes"
  {
  }

  /** The VIP cell is read without regard to surrounding whitespace or to
      case: a fourth cell holding a word padded with whitespace makes the
      row VIP exactly when the word, lower-cased, is "yes". */
  lemma VipCellIgnoresCaseAndSpaces(row: Row, before: string, word: string, after: string)
    requires |row| >= 4 && row[3] == Some(before + word + after)
    requires AllSpace(before) && AllSpace(after)
    requires word != [] && !IsSpace(word[0]) && !IsSpace(word[|word| - 1])
    ensures IsVip(ExtractRecord(row)) <==> Lower(word) == "yes"
  {
    VipFromFourthColumn(row);
    StripPadded(before, word, after);
  }

  const VipTemplate := "static/Card_VIP.jpg"
  const RegularTemplate := "static/Card_Regular.jpg"
  /** TEMPLATE_IMAGE: the file opened when the chosen template is missing. */
  const DefaultTemplate := "Card_Regular.jpg"

  function ChosenTemplate(rec: Record): string {
    if IsVip(rec) then VipTemplate else RegularTemplate
  }

  /** The template the card is drawn on, given which files exist: the VIP
      template exactly for a VIP row whose template exists, the regular
      template exactly for a regular row whose template exists, and
      TEMPLATE_IMAGE whenever the chosen template is missing. */
  function TemplateFor(rec: Record, isFile: string -> bool): (t: string)
    ensures t == VipTemplate <==> IsVip(rec) && isFile(VipTemplate)
    ensures t == RegularTemplate <==> !IsVip(rec) && isFile(RegularTemplate)
    ensures t == DefaultTemplate <==> !isFile(ChosenTemplate(rec))
  {
    var chosen := ChosenTemplate(rec);
    if isFile(chosen) then chosen else DefaultTemplate
  }

  const SubjectStart := "Your A-Member Card Awaits You ("

  /** The e-mail subject: it ends "(VIP)" exactly for a VIP row and
      "(Regular)" exactly for any other row. */
  function Subject(rec: Record): (s: string)
    ensures EndsWith(s, "(VIP)") <==> IsVip(rec)
    ensures EndsWith(s, "(Regular)") <==> !IsVip(rec)
  {
    var s := SubjectStart + (if IsVip(rec) then "VIP" else "Regular") + ")";
    assert IsVip(rec) ==> s[|s| - 5..] == "(VIP)" && s[|s| - 9] == 'Y';
    assert !IsVip(rec) ==> s[|s| - 9..] == "(Regular)" && s[|s| - 5] == 'u';
    s
  }

  /** The subject follows the VIP flag, not the template actually used: a
      VIP row whose template is missing is drawn on TEMPLATE_IMAGE and still
      announced as VIP. */
  lemma MissingVipTemplateStillVipSubject(rec: Record, isFile: string -> bool)
    requires IsVip(rec) && !isFile(VipTemplate)
    ensures TemplateFor(rec, isFile) == DefaultTemplate
    ensures EndsWith(Subject(rec), "(VIP)")
  {
  }

  // ---------------------------------------------------------------------
  // Output file names
  // ---------------------------------------------------------------------

  /** `f"{sanitize_filename(name)}_{sanitize_filename(Card)}.png"`, built
      from the raw card cell (not its display form). */
  function PrimaryFileName(rec: Record): (f: string)
    ensures EndsWith(f, ".png") && '/' !in f && f != []
  {
    var a, b := SanitizeFilename(rec.name), SanitizeFilename(rec.card);
    assert '/' !in a && '/' !in b by {
      assert IsForbidden('/');
    }
    var f := a + "_" + b + ".png";
    assert f[|f| - 4..] == ".png";
    f
  }

  /** `f"card_{i}.png"`, the name used when saving under the primary name
      fails. */
  function FallbackFileName(i: nat): (f: string)
    ensures EndsWith(f, ".png") && '/' !in f && f != []
  {
    var d := NatToString(i);
    assert '/' !in d;
    var f := "card_" + d + ".png";
    assert f[|f| - 4..] == ".png";
    f
  }

  /** Distinct rows have distinct fallback names. */
  lemma FallbackFileNameInjective(i: nat, j: nat)
    requires FallbackFileName(i) == FallbackFileName(j)
    ensures i == j
  {
    var a, b := FallbackFileName(i), FallbackFileName(j);
    assert NatToString(i) == a[5..|a| - 4];
    assert NatToString(j) == b[5..|b| - 4];
    NatToStringInjective(i, j);
  }

  /** Rows that differ in name and card can still be given the same file
      name, because the underscore that joins the two parts is also what a
      space becomes: ("John Doe", "1") and ("John", "Doe 1") both give
      "John_Doe_1.png". */
  lemma DistinctRowsShareFileName(a: string, b: string, c: string, r1: Record, r2: Record)
    requires IsSafeName(a) && IsSafeName(b) && IsSafeName(c)
    requires |a| + |b| < MaxNameLength && |b| + |c| < MaxNameLength
    requires r1.name == a + " " + b && r1.card == c
    requires r2.name == a && r2.card == b + " " + c
    ensures r1 != r2
    ensures PrimaryFileName(r1) == PrimaryFileName(r2)
  {
    SanitizeJoinsWithUnderscore(a, b);
    SanitizeJoinsWithUnderscore(b, c);
    SanitizeKeepsSafeName(a);
    SanitizeKeepsSafeName(c);
    assert (a + "_" + b) + "_" + c + ".png" == a + "_" + (b + "_" + c) + ".png";
  }

  // ---------------------------------------------------------------------
  // Notification
  // ---------------------------------------------------------------------

  /** One call of the mail sender: recipient, subject, body, attachment path. */
  datatype Notification = Notification(recipient: string, subject: string, body: string, attachment: string)

  function MailBody(name: string): string {
    "Dear " + name + ",\n\nPlease find your A-Member card attached.\n\n"
    + "Customer Care & Complaints Management\nOperation Department\n\n"
    + "Phone: +95 9791232222\n\nEmail: customercare@alife.com.mm\n\n"
    + "A Life Insurance Company Limited"
  }

  /** The notification for a record whose card was saved into `folder`:
      sent only when the stripped address is non-empty, and always naming
      the primary file path as the attachment. */
  function MailFor(folder: string, rec: Record): Option<Notification> {
    match rec.email
    case Some(e) =>
      if e != [] then Some(Notification(e, Subject(rec), MailBody(rec.name), JoinPath(folder, PrimaryFileName(rec))))
      else None
    case None => None
  }

  /** A notification is made exactly for a record with a non-empty address. */
  lemma MailForAddress(folder: string, rec: Record)
    ensures MailFor(folder, rec).Some? <==> rec.email.Some? && rec.email.value != []
  {
  }

  /** A row is notified exactly when the table has a fifth column whose cell
      holds some non-whitespace character. */
  lemma MailOnlyForNonBlankEmail(folder: string, row: Row)
    requires |row| >= 3
    ensures MailFor(folder, ExtractRecord(row)).Some? <==>
            |row| > 4 && row[4].Some? && Filter(NotSpace, row[4].value) != []
  {
    var rec := ExtractRecord(row);
    MailForAddress(folder, rec);
    if rec.email.Some? {
      var e := rec.email.value;
      assert Filter(NotSpace, e) == Filter(NotSpace, row[4].value);
      if e != [] {
        assert NotSpace(e[0]);
        assert Filter(NotSpace, e)[0] == e[0];
      }
    }
  }

  /** The attachment names the file saved under the primary name, whatever
      the folder, even when the card was written under the fallback name. */
  lemma MailAttachmentIsPrimaryFile(folder: string, rec: Record)
    requires MailFor(folder, rec).Some?
    ensures BaseName(MailFor(folder, rec).value.attachment) == PrimaryFileName(rec)
    ensures MailFor(folder, rec).value.recipient == rec.email.value
  {
    BaseNameOfJoin(folder, PrimaryFileName(rec));
  }

  /** The notification goes to the e-mail cell with the whitespace around it
      removed: a fifth cell holding an address padded with whitespace is
      mailed to exactly that address. */
  lemma MailGoesToStrippedAddress(folder: string, row: Row, before: string, address: string, after: string)
    requires |row| >= 5 && row[4] == Some(before + address + after)
    requires AllSpace(before) && AllSpace(after)
    requires address != [] && !IsSpace(address[0]) && !IsSpace(address[|address| - 1])
    ensures MailFor(folder, ExtractRecord(row)).Some?
    ensures MailFor(folder, ExtractRecord(row)).value.recipient == address
  {
    EmailIsStrippedCell(row, before, address, after);
    MailForAddress(folder, ExtractRecord(row));
  }
}

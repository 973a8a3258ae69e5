/**
 * Import of the recipient file: the type and size checks made before the
 * file is read, the line parser applied to its text, and the upload
 * component's own state (loading flag, error message, file name).
 */
module FileUpload {
  import opened Wrappers
  import opened Text
  import opened Seqs
  import opened Types

  /** The declared MIME types that are accepted. */
  const AllowedTypes: seq<string> := ["text/csv", "application/vnd.ms-excel"]

  /** The largest accepted size, in bytes: 5 MB. */
  const MaxSize: nat := 5 * 1024 * 1024

  /** Why a file is refused before it is read. */
  datatype UploadError = UnsupportedFileType | FileTooLarge {
    /** The message shown to the user. */
    function Message(): string {
      match this
      case UnsupportedFileType => "Type de fichier non supporté"
      case FileTooLarge => "Fichier trop volumineux"
    }
  }

  /** The checks made before reading: the type first, then the size. */
  function ValidateFile(file: FileInfo): (r: Option<UploadError>)
    ensures r == None <==>
      (file.mimeType == "text/csv" || file.mimeType == "application/vnd.ms-excel") && file.size <= 5242880
    ensures r == Some(FileTooLarge) ==> file.mimeType in AllowedTypes
  {
    if file.mimeType !in AllowedTypes then Some(UnsupportedFileType)
    else if file.size > MaxSize then Some(FileTooLarge)
    else None
  }

  /** An unsupported type is reported whatever the size: the type check comes first. */
  lemma TypeCheckedFirst(file: FileInfo)
    requires file.mimeType != "text/csv" && file.mimeType != "application/vnd.ms-excel"
    ensures ValidateFile(file) == Some(UnsupportedFileType)
    ensures ValidateFile(file).value.Message() == "Type de fichier non supporté"
  {
  }

  /** Exactly 5,242,880 bytes is accepted; one byte more is too large. */
  lemma SizeBoundary(name: string)
    ensures ValidateFile(FileInfo(name, "text/csv", 5242880)) == None
    ensures ValidateFile(FileInfo(name, "text/csv", 5242881)) == Some(FileTooLarge)
    ensures ValidateFile(FileInfo(name, "application/vnd.ms-excel", 5242881)).value.Message()
      == "Fichier trop volumineux"
  {
  }

  /** A parsed line. The destructuring `[name, email, country = ""]` leaves
      `email` undefined when the line has no comma, which `None` stands for. */
  datatype ParsedRecipient = ParsedRecipient(name: string, email: Option<string>, country: string)

  /** One line: split on commas, trim every field, take the first three. */
  function ParseLine(line: string): ParsedRecipient {
    var fields := Map(Split(line, ','), Trim);
    ParsedRecipient(
      fields[0],
      if |fields| >= 2 then Some(fields[1]) else None,
      if |fields| >= 3 then fields[2] else "")
  }

  /** A line is kept when something is left after trimming. */
  predicate NonBlank(line: string) {
    Trim(line) != []
  }

  /** The whole file: split on "\n", drop blank lines, parse the rest in order. */
  function ParseRecipients(text: string): seq<ParsedRecipient> {
    Map(Filter(Split(text, '\n'), NonBlank), ParseLine)
  }

  /** The fields of a line are its first three comma-separated pieces, trimmed;
      later pieces are ignored. */
  lemma {:induction false} ParseLineFields(name: string, email: string, country: string, rest: seq<string>)
    requires ',' !in name && ',' !in email && ',' !in country
    requires forall i :: 0 <= i < |rest| ==> ',' !in rest[i]
    ensures ParseLine(Join([name, email, country] + rest, ','))
         == ParsedRecipient(Trim(name), Some(Trim(email)), Trim(country))
  {
    var parts := [name, email, country] + rest;
    forall i | 0 <= i < |parts| ensures ',' !in parts[i] {
      if i >= 3 { assert parts[i] == rest[i - 3]; }
    }
    SplitJoin(parts, ',');
    var fields := Map(Split(Join(parts, ','), ','), Trim);
    assert fields[0] == Trim(name) && fields[1] == Trim(email) && fields[2] == Trim(country);
  }

  /** A line with one comma has an email but an empty country. */
  lemma ParseLineTwoFields(name: string, email: string)
    requires ',' !in name && ',' !in email
    ensures ParseLine(name + "," + email) == ParsedRecipient(Trim(name), Some(Trim(email)), "")
  {
    SplitJoin([name, email], ',');
    assert Join([name, email], ',') == name + "," + email;
  }

  /** A line without a comma has no email at all and an empty country. */
  lemma ParseLineOneField(line: string)
    requires ',' !in line
    ensures ParseLine(line) == ParsedRecipient(Trim(line), None, "")
  {
    SplitNoSep(line, ',');
  }

  /** The records are the non-blank lines, parsed one by one in file order;
      the first line is data like any other (there is no header row). */
  lemma ParseLines(lines: seq<string>)
    requires |lines| >= 1
    requires forall i :: 0 <= i < |lines| ==> '\n' !in lines[i]
    ensures ParseRecipients(Join(lines, '\n')) == Map(Filter(lines, NonBlank), ParseLine)
    ensures |ParseRecipients(Join(lines, '\n'))| == |Filter(lines, NonBlank)|
    ensures NonBlank(lines[0]) ==> ParseRecipients(Join(lines, '\n'))[0] == ParseLine(lines[0])
  {
    SplitJoin(lines, '\n');
  }

  /** Every record comes from a line of the file that is not all white space,
      and every such line gives a record. */
  lemma ParseKeepsNonBlankLines(text: string, line: string)
    ensures line in Filter(Split(text, '\n'), NonBlank) <==> line in Split(text, '\n') && !AllSpace(line)
  {
    TrimEmptyIff(line);
  }

  /** A line of the form `name,email,country`. */
  function FormatRow(r: Recipient): string {
    r.name + "," + r.email + "," + r.country
  }

  /** What parsing should give back for a written record. */
  function AsParsed(r: Recipient): ParsedRecipient {
    ParsedRecipient(r.name, Some(r.email), r.country)
  }

  /** A field that writes and reads back unchanged: no separator and no
      white space at either end. */
  predicate CleanField(s: string) {
    ',' !in s && '\n' !in s && (s != [] ==> !IsSpace(s[0]) && !IsSpace(s[|s| - 1]))
  }

  predicate CleanRecipient(r: Recipient) {
    CleanField(r.name) && CleanField(r.email) && CleanField(r.country)
  }

  lemma CleanTrim(s: string)
    requires CleanField(s)
    ensures Trim(s) == s
  {
    TrimUnchanged(s);
  }

  /** A written line is its three fields joined with commas. */
  lemma FormatRowJoin(r: Recipient)
    ensures FormatRow(r) == Join([r.name, r.email, r.country], ',')
  {
    var parts := [r.name, r.email, r.country];
    assert parts[1..] == [r.email, r.country] && parts[1..][1..] == [r.country];
    assert Join([r.email, r.country], ',') == r.email + "," + r.country;
  }

  /** A written line holds a comma, so it is never blank. */
  lemma FormatRowNonBlank(r: Recipient)
    ensures NonBlank(FormatRow(r))
  {
    var line := FormatRow(r);
    assert line[|r.name|] == ',';
    TrimEmptyIff(line);
  }

  /** A written line stays on one line when its fields do. */
  lemma FormatRowOneLine(r: Recipient)
    requires '\n' !in r.name && '\n' !in r.email && '\n' !in r.country
    ensures '\n' !in FormatRow(r)
  {
  }

  /** Three trimmed, comma-free fields joined with commas read back as themselves. */
  lemma ParseTrimmedFields(name: string, email: string, country: string)
    requires ',' !in name && ',' !in email && ',' !in country
    requires Trim(name) == name && Trim(email) == email && Trim(country) == country
    ensures ParseLine(Join([name, email, country], ',')) == ParsedRecipient(name, Some(email), country)
  {
    var parts := [name, email, country];
    assert parts + [] == parts;
    ParseLineFields(name, email, country, []);
  }

  /** One clean record written as a line reads back as itself. */
  lemma ParseFormattedRow(r: Recipient)
    requires CleanRecipient(r)
    ensures ParseLine(FormatRow(r)) == AsParsed(r)
  {
    CleanTrim(r.name);
    CleanTrim(r.email);
    CleanTrim(r.country);
    FormatRowJoin(r);
    ParseTrimmedFields(r.name, r.email, r.country);
  }

  /** Lines that are all non-blank are all parsed, none dropped. */
  lemma ParseNonBlankLines(lines: seq<string>)
    requires |lines| >= 1
    requires forall i :: 0 <= i < |lines| ==> '\n' !in lines[i] && NonBlank(lines[i])
    ensures ParseRecipients(Join(lines, '\n')) == Map(lines, ParseLine)
  {
    ParseLines(lines);
    FilterKeepsAll(lines, NonBlank);
  }

  /** Round trip: writing clean records one per line as `name,email,country`
      and parsing the text gives the same records back, in the same order. */
  lemma ParseFormattedRows(rows: seq<Recipient>)
    requires |rows| >= 1
    requires forall i :: 0 <= i < |rows| ==> CleanRecipient(rows[i])
    ensures ParseRecipients(Join(Map(rows, FormatRow), '\n')) == Map(rows, AsParsed)
  {
    var lines := Map(rows, FormatRow);
    forall i | 0 <= i < |lines|
      ensures '\n' !in lines[i] && NonBlank(lines[i]) && ParseLine(lines[i]) == AsParsed(rows[i])
    {
      FormatRowOneLine(rows[i]);
      FormatRowNonBlank(rows[i]);
      ParseFormattedRow(rows[i]);
    }
    ParseNonBlankLines(lines);
  }

  /** A non-empty field of printable ASCII without commas or spaces is clean. */
  lemma CleanLiteral(s: string)
    requires s != [] && forall i :: 0 <= i < |s| ==> '!' <= s[i] <= '~' && s[i] != ','
    ensures CleanField(s)
  {
  }

  const Alice := Recipient("Alice", "alice@x.com", "France")
  const Bob := Recipient("Bob", "bob@x.com", "Togo")

  lemma AliceRow()
    ensures FormatRow(Alice) == "Alice,alice@x.com,France"
  {
  }

  lemma BobRow()
    ensures FormatRow(Bob) == "Bob,bob@x.com,Togo"
  {
  }

  lemma TwoLineJoin()
    ensures Join(Map([Alice, Bob], FormatRow), '\n') == FormatRow(Alice) + "\n" + FormatRow(Bob)
  {
    var lines := Map([Alice, Bob], FormatRow);
    assert lines == [FormatRow(Alice), FormatRow(Bob)];
    assert lines[1..] == [FormatRow(Bob)];
  }

  lemma TwoLineText()
    ensures Join(Map([Alice, Bob], FormatRow), '\n') == "Alice,alice@x.com,France\nBob,bob@x.com,Togo"
  {
    TwoLineJoin();
    AliceRow();
    BobRow();
  }

  lemma ExampleRowsClean()
    ensures CleanRecipient(Alice) && CleanRecipient(Bob)
  {
    CleanLiteral("Alice");
    CleanLiteral("alice@x.com");
    CleanLiteral("France");
    CleanLiteral("Bob");
    CleanLiteral("bob@x.com");
    CleanLiteral("Togo");
  }

  /** The two-line example: two records with the given fields, in that order. */
  lemma ParseTwoLineExample()
    ensures ParseRecipients("Alice,alice@x.com,France\nBob,bob@x.com,Togo")
         == [ParsedRecipient("Alice", Some("alice@x.com"), "France"),
             ParsedRecipient("Bob", Some("bob@x.com"), "Togo")]
  {
    ExampleRoundTrip();
    TwoLineText();
    ExampleParsed();
  }

  lemma ExampleRoundTrip()
    ensures ParseRecipients(Join(Map([Alice, Bob], FormatRow), '\n')) == Map([Alice, Bob], AsParsed)
  {
    ExampleRowsClean();
    ParseFormattedRows([Alice, Bob]);
  }

  lemma ExampleParsed()
    ensures Map([Alice, Bob], AsParsed)
         == [ParsedRecipient("Alice", Some("alice@x.com"), "France"),
             ParsedRecipient("Bob", Some("bob@x.com"), "Togo")]
  {
  }

  /** The upload component's own state. */
  class Uploader {
    var isLoading: bool
    var error: Option<string>
    var fileName: Option<string>

    constructor ()
      ensures !isLoading && error == None && fileName == None
    {
      isLoading, error, fileName := false, None, None;
    }

    /** `handleFileUpload`. `content` is the text the file reader produces;
        the returned list is what reaches `onFileUpload`, which replaces the
        recipient list with it. The loading flag is back to false when the
        handler returns. */
    method HandleFileUpload(file: Option<FileInfo>, content: string)
      returns (delivered: Option<seq<ParsedRecipient>>)
      modifies this
      ensures file == None ==> delivered == None && unchanged(this)
      ensures file.Some? ==> !isLoading
      ensures file.Some? && ValidateFile(file.value).Some? ==>
        delivered == None && error == Some(ValidateFile(file.value).value.Message())
        && fileName == old(fileName)
      ensures file.Some? && ValidateFile(file.value) == None ==>
        delivered == Some(ParseRecipients(content)) && error == None
        && fileName == Some(file.value.name)
    {
      delivered := None;
      if file == None {
        return;
      }
      isLoading := true;
      error := None;
      var check := ValidateFile(file.value);
      if check.Some? {
        error := Some(check.value.Message());
      } else {
        fileName := Some(file.value.name);
        delivered := Some(ParseRecipients(content));
      }
      isLoading := false;
    }

    /** The close button next to the file name. */
    method Dismiss()
      modifies this
      ensures fileName == None && error == None && isLoading == old(isLoading)
    {
      fileName := None;
      error := None;
    }
  }
}

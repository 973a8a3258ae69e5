/**
 * The email draft store: subject, content, attachments and the selected
 * countries, each set by its own reducer.
 */
module EmailSlice {
  import opened Types

  class EmailDraft {
    var subject: string
    var content: string
    var attachments: seq<FileInfo>
    var selectedCountries: seq<string>

    /** The initial state: empty texts, no attachment, no country. */
    constructor ()
      ensures subject == "" && content == "" && attachments == [] && selectedCountries == []
    {
      subject, content, attachments, selectedCountries := "", "", [], [];
    }

    method SetSubject(s: string)
      modifies this
      ensures subject == s
      ensures content == old(content) && attachments == old(attachments) && selectedCountries == old(selectedCountries)
    {
      subject := s;
    }

    method SetContent(c: string)
      modifies this
      ensures content == c
      ensures subject == old(subject) && attachments == old(attachments) && selectedCountries == old(selectedCountries)
    {
      content := c;
    }

    method SetAttachments(files: seq<FileInfo>)
      modifies this
      ensures attachments == files
      ensures subject == old(subject) && content == old(content) && selectedCountries == old(selectedCountries)
    {
      attachments := files;
    }

    method SetSelectedCountries(countries: seq<string>)
      modifies this
      ensures selectedCountries == countries
      ensures subject == old(subject) && content == old(content) && attachments == old(attachments)
    {
      selectedCountries := countries;
    }
  }
}

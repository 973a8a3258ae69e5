/** The records the application passes around. */
module Types {

  /** One imported contact. `country` may be empty, meaning "not specified". */
  datatype Recipient = Recipient(name: string, email: string, country: string)

  /** A sending identity with its default texts. */
  datatype SenderProfile = SenderProfile(
    id: string,
    name: string,
    email: string,
    defaultSubject: string,
    defaultMessage: string,
    signature: string,
    isDefault: bool)

  /** What the application reads of a browser `File`: its name, its declared
      MIME type and its size in bytes. */
  datatype FileInfo = FileInfo(name: string, mimeType: string, size: nat)
}

/** The chat message: optional text, optional attachment. */
module Messages {
  import opened Wrappers
  import opened Files

  datatype Message = Message(data: Option<string>, file: Option<File>)

  /** `Message::build`: the message holds exactly the text and attachment it is given. */
  function Build(data: Option<string>, file: Option<File>): (m: Message)
    ensures m.data == data && m.file == file
  {
    Message(data, file)
  }

  /** `Message::is_empty`: the message has neither text nor attachment, so it is the one empty message. */
  function IsEmpty(m: Message): (r: bool)
    ensures r <==> m == Message(None, None)
  {
    m.data.None? && m.file.None?
  }

  const EmptyRendering: string := "*Empty message*"
  const FileSeparator: string := ", File: "
  const FileLabel: string := "File: "

  /** `Display for Message`: the line the receiving side prints. */
  function Render(m: Message): (r: string)
    ensures IsEmpty(m) ==> r == EmptyRendering
    ensures m.data.Some? ==> m.data.value <= r
    ensures m.file.Some? ==> |m.file.value.name| <= |r| && r[|r| - |m.file.value.name|..] == m.file.value.name
    ensures m.data.Some? && m.file.Some? ==> r == m.data.value + FileSeparator + m.file.value.name
    ensures m.data.Some? && m.file.None? ==> r == m.data.value
    ensures m.data.None? && m.file.Some? ==> r == FileLabel + m.file.value.name
  {
    match (m.data, m.file)
    case (Some(text), Some(file)) => text + FileSeparator + file.name
    case (Some(text), None) => text
    case (None, Some(file)) => FileLabel + file.name
    case (None, None) => EmptyRendering
  }

  /**
   * The placeholder line shows up for the empty message and, indistinguishably,
   * for a text-only message whose text is the placeholder itself; never when an
   * attachment is present.
   */
  lemma RenderEmptyExactly(m: Message)
    ensures Render(m) == EmptyRendering <==> IsEmpty(m) || m == Message(Some(EmptyRendering), None)
  {
    match (m.data, m.file)
    case (Some(text), Some(file)) =>
      assert Render(m)[|text|] == ',';
      assert ',' !in EmptyRendering;
    case (None, Some(file)) =>
      assert Render(m)[0] == 'F';
    case _ =>
  }

  /** A request to write an attachment into the download directory. */
  datatype FileWrite = FileWrite(dir: string, file: File)

  /** What `try_to_download_file` did: whether it saved, and which writes it asked for. */
  datatype Download = Download(saved: bool, writes: seq<FileWrite>)

  /**
   * `try_to_download_file`: a message without attachment saves nothing and
   * reports false; otherwise the attachment is written under `dir` and the
   * report is whatever the write reported (`writeSucceeded`).
   */
  function TryToDownloadFile(m: Message, dir: string, writeSucceeded: bool): (r: Download)
    ensures m.file.None? ==> !r.saved && r.writes == []
    ensures m.file.Some? ==> r.writes == [FileWrite(dir, m.file.value)] && r.saved == writeSucceeded
    ensures r.saved ==> |r.writes| == 1
  {
    match m.file
    case Some(file) => Download(writeSucceeded, [FileWrite(dir, file)])
    case None => Download(false, [])
  }
}

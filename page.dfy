/** Values the page script reads from the document: the `.chapter` elements
    and an optional lookup result. */
module Page {

  datatype Option<T> = None | Some(value: T)

  /** A `.chapter` element: its `id` attribute, the text of its
      `.chapter-title` child, its whole `textContent` (which includes the
      title), and its layout box (`offsetTop`, `clientHeight`). */
  datatype Chapter = Chapter(id: string, title: string, text: string, offsetTop: int, height: nat)
}

/** The browser objects the client scripts read and write, reduced to the parts they use. */
module Dom {
  import opened Wrappers

  /** A `<button>` of a choice group: its class list, its `data-color` attribute and its `innerText`. */
  datatype Button = Button(classes: set<string>, dataColor: Option<string>, text: string)

  /** A file chosen in an `<input type="file">`: its name and its MIME type (`file.type`). */
  datatype File = File(name: string, mimeType: string)

  /** An element of the document body: its `id`, its `className` and its `innerText`. */
  datatype Element = Element(id: string, className: string, text: string)
}

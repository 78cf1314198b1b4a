/** Media types are Ruby symbols such as `:'text/plain'`; the model only ever
    compares them for equality. */
module MediaTypes {

  datatype MediaType = MediaType(name: string)

  const TextPlain := MediaType("text/plain")
  const TextHtml := MediaType("text/html")
}

/** A retrieved LangChain document: its text and its metadata. */
module Documents {

  /** `page_content` and `metadata`; metadata values are taken to be strings. */
  datatype Document = Document(pageContent: string, metadata: map<string, string>)
}

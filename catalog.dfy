/** The book's content catalog: an ordered sequence of chapters, each owning
    an ordered sequence of sections. Only the text that the site computes with
    is kept; icons and rich-text bodies are not part of this model. */
module Catalog {

  datatype Section = Section(heading: string)

  datatype Chapter = Chapter(id: string, title: string, sections: seq<Section>)
}

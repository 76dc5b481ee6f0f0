/** The request and response records of the slide application. */
module Slides {

  /** One block of the applicant's input: a heading and free text. */
  datatype Section = Section(title: string, content: string)

  /** One slide: a title and its bullet lines; the first bullet, when there is
      one, is the slide's message line. */
  datatype Slide = Slide(title: string, bullets: seq<string>)

  /** The whole deck, as the client sends it back on every edit and export. */
  datatype SlidesState = SlidesState(slides: seq<Slide>)

  /** A chat edit: the current deck and the user's instruction. */
  datatype PatchRequest = PatchRequest(slides: seq<Slide>, prompt: string)
}

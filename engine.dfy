/** The machine-translation engine, seen from the translators: a call with a
    text, a source and a destination language code that either answers or
    fails. */
module Engine {
  import opened Wrappers

  /** An engine's answer: the translated text and the source language it
      reports (`.text` and `.src` of a googletrans result). */
  datatype Reply = Reply(text: string, src: string)

  /** `translate(text, src=..., dest=...)`; a failure carries the message of
      the exception the engine raised. */
  type Translate = (string, string, string) -> Result<Reply, string>
}

/** A catalogue entry as the formatter reads and writes it
    (`Formatter.Message` of packages/config/src/shapes.ts, with the `context`
    field the commands read), and the key a catalogue files it under. An
    absent optional field is `None`. */
module Formatter {
  import opened Wrappers
  import Hash

  datatype Message = Message(
    message: string,
    translation: Option<string>,
    context: Option<string>,
    comments: Option<seq<string>>,
    references: Option<seq<string>>)

  /** The catalogue commands call the TypeScript `generateHash`, a separate
      implementation of what `Hash.GenerateHash` computes; it is a parameter
      here, and the lemmas that tie catalogue keys to the generated code ask
      for it to agree with `Hash.GenerateHash`. */
  type Hasher = (string, Option<string>) -> string

  ghost predicate IsGenerateHash(hash: Hasher, sha256: Hash.Sha256) {
    forall input, context :: hash(input, context) == Hash.GenerateHash(sha256, input, context)
  }

  /** `generateHash(message.message, message.context)`. */
  function Key(hash: Hasher, m: Message): string {
    hash(m.message, m.context)
  }

  /** JavaScript truthiness of an optional string: present and non-empty. */
  predicate Truthy(s: Option<string>) {
    s.Some? && s.value != ""
  }
}

/** The one exception `format` throws: a placeholder name that fails the name grammar. */
module NamedMessageFormatException {

  /**
   * `NamedMessageFormatException.FIRST_LETTER_IS_NUMBER`, the fixed message
   * prefix; its text is immaterial to the model and left unspecified.
   */
  const FirstLetterIsNumber: string

  /** The exception, carrying the rejected name (`namedKey`). */
  datatype NamedFormatError = InvalidName(name: string)
  {
    /** `super(message + ":" + namedKey)`. */
    function Message(): (msg: string)
      ensures |msg| == |FirstLetterIsNumber| + 1 + |name|
      ensures msg[..|FirstLetterIsNumber|] == FirstLetterIsNumber && msg[|FirstLetterIsNumber|] == ':'
      ensures msg[|FirstLetterIsNumber| + 1..] == name
    {
      FirstLetterIsNumber + ":" + name
    }
  }

  /** Two exceptions with the same message carry the same name. */
  lemma MessageDeterminesName(a: NamedFormatError, b: NamedFormatError)
    ensures a.Message() == b.Message() ==> a == b
  {
    if a.Message() == b.Message() {
      assert a.name == a.Message()[|FirstLetterIsNumber| + 1..];
    }
  }
}

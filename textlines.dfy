/** The line object the filters receive. Only the part the filters use is
    modelled: its text view (`as_str`) and the replace operation (`set`). */
module TextLines {

  /** The exception a filter raises when it indexes an empty line. */
  datatype FilterError = IndexError

  class TextLine {
    var text: string

    constructor (s: string)
      ensures text == s
    {
      text := s;
    }

    /** `as_str()`. */
    function AsStr(): string
      reads this
    {
      text
    }

    /** `set(s)`: the line now holds `s`. */
    method Set(s: string)
      modifies this
      ensures text == s
    {
      text := s;
    }
  }
}

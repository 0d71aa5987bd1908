/** The fixed texts, spelled by their characters. */
module Literals {
  import opened Basics
  import opened JsonValues

  /** The code units of an ASCII text. */
  function Chars(s: string): (t: Text)
    requires forall i | 0 <= i < |s| :: s[i] < 128 as char
  {
    seq(|s|, i requires 0 <= i < |s| => s[i] as int)
  }
}

/** What several parts of the model share. */
module Common {

  datatype Option<+T> = None | Some(value: T)

  /** The internal name of the rack controller that runs the software itself. */
  const RC0 := "rackcontroller-0"

  /** tolower in the C locale. */
  function Lower(c: char): char {
    if 'A' <= c <= 'Z' then ((c as int) + 32) as char else c
  }

  /** The same character, or the same letter in upper and lower case. */
  predicate SameLetter(a: char, b: char) {
    || a == b
    || ('A' <= a <= 'Z' && b as int == a as int + ('a' as int - 'A' as int))
    || ('A' <= b <= 'Z' && a as int == b as int + ('a' as int - 'A' as int))
  }

  predicate SameUpToCase(s: string, t: string) {
    |s| == |t| && forall i :: 0 <= i < |s| ==> SameLetter(s[i], t[i])
  }

  /** Two characters have the same lower case exactly if they are the same letter; no upper case letter is one. */
  lemma LowerMeans(a: char, b: char)
    ensures Lower(a) == Lower(b) <==> SameLetter(a, b)
    ensures !('A' <= Lower(a) <= 'Z')
  {
  }

  predicate IsDigits(s: string) {
    forall i :: 0 <= i < |s| ==> '0' <= s[i] <= '9'
  }

  /** The number that the digits stand for. */
  function ValueOf(s: string): nat
    requires IsDigits(s)
  {
    if s == [] then 0
    else 10 * ValueOf(s[..|s| - 1]) + (s[|s| - 1] as int - '0' as int)
  }
}

/** Small value types shared by the other modules. */
module Common {

  datatype Option<T> = None | Some(value: T)

  /** A match of a pattern: the characters s[start..end] were matched. */
  datatype Span = Span(start: nat, end: nat)

  /** `w` occurs in `s` starting at index `i`. */
  predicate Occurs(s: string, w: string, i: nat)
  {
    i + |w| <= |s| && s[i..i + |w|] == w
  }

  /** JavaScript's `String.prototype.endsWith`. */
  predicate EndsWith(s: string, suffix: string)
  {
    |suffix| <= |s| && s[|s| - |suffix|..] == suffix
  }

  /** `w` occurs nowhere in `s`. */
  ghost predicate Absent(s: string, w: string)
  {
    forall j :: !Occurs(s, w, j)
  }
}

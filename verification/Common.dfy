/** Shared vocabulary: optional values, results, and the text helpers several files use. */
module Common {
  datatype Option<+T> = None | Some(value: T)

  datatype Result<+T, +E> = Ok(value: T) | Err(error: E)

  /** ASCII `str.lower`. */
  function LowerChar(c: char): char {
    if 'A' <= c <= 'Z' then (c as int + 32) as char else c
  }

  function Lower(s: string): (r: string)
    ensures |r| == |s|
    ensures forall i :: 0 <= i < |s| ==> r[i] == LowerChar(s[i])
  {
    if s == [] then [] else [LowerChar(s[0])] + Lower(s[1..])
  }

  /** ASCII white space, as `str.split`, `str.strip` and `\s` see it. */
  predicate IsSpace(c: char) {
    9 as char <= c <= 13 as char || 28 as char <= c <= 32 as char
  }

  function StripLeft(s: string): (r: string)
    ensures |r| <= |s|
    ensures s != [] && IsSpace(s[0]) ==> |r| < |s|
  {
    if s != [] && IsSpace(s[0]) then StripLeft(s[1..]) else s
  }

  function StripRight(s: string): string {
    if s != [] && IsSpace(s[|s| - 1]) then StripRight(s[..|s| - 1]) else s
  }

  function Strip(s: string): string { StripRight(StripLeft(s)) }

  /** `str.partition`: the text before and after the first separator, if there is one. */
  function Partition(s: string, separator: char): Option<(string, string)> {
    if s == [] then None
    else if s[0] == separator then Some(([], s[1..]))
    else match Partition(s[1..], separator)
      case None => None
      case Some(halves) => Some(([s[0]] + halves.0, halves.1))
  }

  /** Some element of a non-empty set, for loops that visit a set in no fixed order. */
  method Choose<T(==)>(s: set<T>) returns (x: T)
    requires s != {}
    ensures x in s
  {
    x :| x in s;
  }

  /** A name outside any finite set of names: longer than all of them. */
  lemma FreshName(names: set<string>) returns (name: string)
    ensures name !in names && name != "" && name != "any"
  {
    var bound := 4;
    var rest := names;
    while rest != {}
      invariant bound >= 4 && rest <= names
      invariant forall n :: n in names ==> n in rest || |n| < bound
      decreases rest
    {
      var n := Pick(rest);
      if |n| >= bound { bound := |n| + 1; }
      rest := rest - {n};
    }
    name := seq(bound, _ => 'z');
  }

  ghost function Pick<T>(s: set<T>): (x: T)
    requires s != {}
    ensures x in s
  {
    var x :| x in s; x
  }

  lemma SubsetSize<T>(a: set<T>, b: set<T>)
    requires a <= b
    ensures |a| <= |b|
  {
    assert b == a + (b - a);
  }
}

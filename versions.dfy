/**
 * Version tags of directory names.  The version parser itself is not part
 * of this model: it is a parameter, a function from a name to an optional
 * (major, minor, micro) triple in which -1 marks an absent component.
 */
module Versions {
  import opened Wrappers

  const Absent: int := -1

  datatype Version = Version(major: int, minor: int, micro: int)

  type Parser = string -> Option<Version>

  /** Which version directories a resolver takes: any parsed version, or major-only ones. */
  datatype Rule = AnyVersion | MajorOnly

  predicate Accepts(rule: Rule, parse: Parser, name: string) {
    match parse(name)
    case None => false
    case Some(v) =>
      rule.AnyVersion? || (v.major != Absent && v.minor == Absent && v.micro == Absent)
  }
}

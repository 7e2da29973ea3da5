/** The PSR-3 severity levels and the rank table of `Logger::LEVELS`. */
module Levels {
  import opened Wrappers

  /** The eight severities of section 1.1 of PSR-3, most severe first. */
  datatype Level = Emergency | Alert | Critical | Error | Warning | Notice | Info | Debug

  /** The rank table: a lower rank is a more severe level. */
  function Rank(l: Level): (r: nat)
    ensures r <= 7
    ensures r == 0 <==> l == Emergency
    ensures r == 7 <==> l == Debug
  {
    match l
    case Emergency => 0
    case Alert => 1
    case Critical => 2
    case Error => 3
    case Warning => 4
    case Notice => 5
    case Info => 6
    case Debug => 7
  }

  /** The canonical lower-case name of a level (the `LogLevel` constants). */
  function Name(l: Level): string
  {
    match l
    case Emergency => "emergency"
    case Alert => "alert"
    case Critical => "critical"
    case Error => "error"
    case Warning => "warning"
    case Notice => "notice"
    case Info => "info"
    case Debug => "debug"
  }

  /** The table lookup `isset(self::LEVELS[$level])`: a name is recognised
      exactly when it is one of the eight canonical names (case-sensitive). */
  function ParseLevel(s: string): (r: Option<Level>)
    ensures r.Some? ==> Name(r.value) == s
    ensures r.None? ==> forall l :: Name(l) != s
  {
    if s == "emergency" then Some(Emergency)
    else if s == "alert" then Some(Alert)
    else if s == "critical" then Some(Critical)
    else if s == "error" then Some(Error)
    else if s == "warning" then Some(Warning)
    else if s == "notice" then Some(Notice)
    else if s == "info" then Some(Info)
    else if s == "debug" then Some(Debug)
    else None
  }

  /** The inverse of the rank table. */
  function FromRank(n: nat): (l: Level)
    requires n <= 7
    ensures Rank(l) == n
  {
    if n == 0 then Emergency
    else if n == 1 then Alert
    else if n == 2 then Critical
    else if n == 3 then Error
    else if n == 4 then Warning
    else if n == 5 then Notice
    else if n == 6 then Info
    else Debug
  }

  /** The rank table is a bijection between the eight levels and 0..7:
      `FromRank` undoes `Rank` and `Rank` undoes `FromRank`. */
  lemma RankIsBijection()
    ensures forall l :: FromRank(Rank(l)) == l
    ensures forall n: nat :: n <= 7 ==> Rank(FromRank(n)) == n
    ensures forall a, b :: Rank(a) == Rank(b) ==> a == b
  {
  }

  /** Looking up a level's own name gives that level back. */
  lemma ParseName(l: Level)
    ensures ParseLevel(Name(l)) == Some(l)
  {
  }
}

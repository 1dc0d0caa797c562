/** The three entry widgets that the countdown timer and the alarm read their
    numbers from. The lexical rules of Python's int() are abstracted away: an
    entry is either empty, the text of some integer, or text that int()
    rejects with a ValueError. */
module Fields {

  import opened Opt

  datatype Field = Empty | Num(n: int) | Bad

  /** The number an entry contributes: an empty entry counts as 0, and a
      rejected entry has no number. */
  function Read(f: Field): (r: Option<int>)
    ensures r.None? <==> f.Bad?
    ensures f.Empty? ==> r == Some(0)
    ensures f.Num? ==> r == Some(f.n)
  {
    match f
    case Empty => Some(0)
    case Num(n) => Some(n)
    case Bad => None
  }

  /** Reads three entries in order; the first rejected entry aborts the whole
      reading, so nothing is produced unless all three are readable. */
  function ReadThree(a: Field, b: Field, c: Field): (r: Option<(int, int, int)>)
    ensures r.None? <==> (a.Bad? || b.Bad? || c.Bad?)
    ensures r.Some? ==> Read(a) == Some(r.value.0) && Read(b) == Some(r.value.1) && Read(c) == Some(r.value.2)
  {
    match (Read(a), Read(b), Read(c))
    case (Some(x), Some(y), Some(z)) => Some((x, y, z))
    case _ => None
  }

}

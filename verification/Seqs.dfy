/** The two ends of a sequence. */
module Seqs {

  function Last<T>(s: seq<T>): (x: T)
    requires s != []
  {
    s[|s| - 1]
  }

  function Front<T>(s: seq<T>): (f: seq<T>)
    requires s != []
  {
    s[..|s| - 1]
  }
}

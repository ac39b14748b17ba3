/** What several models share. */
module Common {

  datatype Option<T> = None | Some(value: T)

  ghost predicate Distinct<T>(s: seq<T>) {
    forall i, j :: 0 <= i < j < |s| ==> s[i] != s[j]
  }

  ghost function Members<T>(s: seq<T>): set<T> {
    set x | x in s
  }
}

/** Small helpers shared by the member and task tables: an optional value and
    the "first row matching a boolean mask" lookup that `df[mask].index[0]`
    and `df[mask].iloc[0]` perform on a data frame. */
module Common {

  datatype Option<+T> = None | Some(value: T)

  /** Position of the first element satisfying `p`, or None when no element does
      (the case in which `df[mask].index[0]` raises an IndexError). */
  function FirstWhere<T>(s: seq<T>, p: T -> bool): (r: Option<nat>)
    ensures r.Some? ==> r.value < |s| && p(s[r.value])
    ensures r.Some? ==> forall j :: 0 <= j < r.value ==> !p(s[j])
    ensures r.None? <==> forall j :: 0 <= j < |s| ==> !p(s[j])
  {
    if |s| == 0 then None
    else if p(s[0]) then Some(0)
    else match FirstWhere(s[1..], p)
      case None => None
      case Some(k) => Some(k + 1)
  }

  /** Appending elements that fail `p`, or anything after a first match,
      does not move the first match. */
  lemma FirstWhereExtended<T>(s: seq<T>, t: seq<T>, p: T -> bool)
    requires FirstWhere(s, p).Some? || forall j :: 0 <= j < |t| ==> !p(t[j])
    ensures FirstWhere(s + t, p) == FirstWhere(s, p)
  {
    if FirstWhere(s, p).Some? {
      var i := FirstWhere(s, p).value;
      assert (s + t)[i] == s[i];
    } else {
      forall j | 0 <= j < |s + t| ensures !p((s + t)[j]) {
        if j < |s| {
          assert (s + t)[j] == s[j];
        } else {
          assert (s + t)[j] == t[j - |s|];
        }
      }
    }
  }
}

/** FindWithFiltersAsync: lookup by Id through the filtered Users set. */
module DbSetExtensions {
  import opened Wrappers
  import opened Models
  import Data
  import Linq

  /** Position of the row FindWithFiltersAsync returns: the first row passing the filter with that Id. */
  function LiveIndex(users: seq<User>, id: int): (r: Option<nat>)
    ensures r.Some? ==> r.value < |users| && Data.QueryFilter(users[r.value]) && users[r.value].id == id
    ensures r.Some? ==> forall j :: 0 <= j < r.value ==> !(Data.QueryFilter(users[j]) && users[j].id == id)
    ensures r.None? <==> forall j :: 0 <= j < |users| ==> !(Data.QueryFilter(users[j]) && users[j].id == id)
  {
    Linq.FirstIndex(users, (u: User) => Data.QueryFilter(u) && u.id == id)
  }

  /** The entity with that key if a live one exists, else null. A read: it has no store to change. */
  function FindWithFilters(users: seq<User>, id: int): (r: Option<User>)
    ensures r.Some? ==> r.value in users && r.value.id == id && Data.QueryFilter(r.value)
    ensures r.None? <==> forall j :: 0 <= j < |users| ==> !(Data.QueryFilter(users[j]) && users[j].id == id)
  {
    match LiveIndex(users, id)
    case None => None
    case Some(k) => Some(users[k])
  }

  /** With unique ids, any live row is exactly what a lookup by its id returns. */
  lemma FindsLiveRow(users: seq<User>, k: nat)
    requires forall i, j :: 0 <= i < j < |users| ==> users[i].id != users[j].id
    requires k < |users| && Data.QueryFilter(users[k])
    ensures LiveIndex(users, users[k].id) == Some(k)
    ensures FindWithFilters(users, users[k].id) == Some(users[k])
  {
  }

  /** Once row k is soft-deleted, no lookup by its id finds anything. */
  lemma SoftDeletedIsInvisible(users: seq<User>, k: nat, now: int)
    requires forall i, j :: 0 <= i < j < |users| ==> users[i].id != users[j].id
    requires k < |users|
    ensures FindWithFilters(users[k := Data.SoftDeleted(users[k], now)], users[k].id) == None
  {
    var after := users[k := Data.SoftDeleted(users[k], now)];
    forall j | 0 <= j < |after| ensures !(Data.QueryFilter(after[j]) && after[j].id == users[k].id) {
      if j != k { assert after[j] == users[j]; }
    }
  }
}

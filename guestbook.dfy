/**
 * The guestbook on a profile page: any user may leave an entry on another
 * user's page, and the entry's writer or the page's owner may remove it.
 */
module Guestbook {
  import opened Common
  import opened Users

  /** The `content` column holds at most 500 characters. */
  const MAX_ENTRY_CONTENT: nat := 500

  datatype Entry = Entry(owner: UserId, writer: UserId, content: string, createdAt: Time)

  /** `GuestbookResponse`: the entry with its writer's card and whether the viewer may delete it. */
  datatype EntryView = EntryView(
    id: nat,
    writer: UserId,
    writerName: string,
    writerImageUrl: Option<string>,
    content: string,
    createdAt: Time,
    canDelete: bool)

  /** `deleteEntry`'s permission: the writer or the page's owner. */
  predicate MayDelete(e: Entry, u: UserId) {
    e.writer == u || e.owner == u
  }

  /** The `canDelete` flag: false for an anonymous viewer, else exactly `deleteEntry`'s permission. */
  function CanDelete(e: Entry, viewer: Option<UserId>): (b: bool)
    ensures viewer.None? ==> !b
    ensures viewer.Some? ==> (b <==> MayDelete(e, viewer.value))
  {
    viewer.Some? && (e.writer == viewer.value || e.owner == viewer.value)
  }

  /** `toResponse`. */
  function ViewOf(id: nat, e: Entry, users: map<UserId, User>, viewer: Option<UserId>): (v: EntryView)
    requires e.writer in users
    ensures v.id == id && v.writer == e.writer && v.content == e.content && v.createdAt == e.createdAt
    ensures v.writerName == users[e.writer].name && v.writerImageUrl == users[e.writer].profileImageUrl
    ensures v.canDelete == CanDelete(e, viewer)
  {
    EntryView(id, e.writer, users[e.writer].name, users[e.writer].profileImageUrl, e.content, e.createdAt,
              CanDelete(e, viewer))
  }

  /** The writer of a fresh entry may delete it. */
  lemma WriterMayDeleteOwnEntry(e: Entry)
    ensures CanDelete(e, Some(e.writer)) && CanDelete(e, Some(e.owner))
  {
  }

  /** The entries on `owner`'s page. */
  function OnPage(rows: map<nat, Entry>, owner: UserId): (r: set<nat>)
    ensures forall id :: id in r <==> id in rows && rows[id].owner == owner
  {
    set id | id in rows && rows[id].owner == owner
  }

  function ViewIds(vs: seq<EntryView>): (ids: seq<nat>)
    ensures |ids| == |vs| && forall i | 0 <= i < |vs| :: ids[i] == vs[i].id
  {
    seq(|vs|, i requires 0 <= i < |vs| => vs[i].id)
  }

  class GuestbookService {
    const users: UserStore
    var entries: Table<Entry>

    /** Every entry's owner and writer are stored users (both columns are foreign keys). */
    ghost predicate Valid()
      reads this, users
    {
      entries.Valid()
      && forall id | id in entries.rows :: entries.rows[id].owner in users.users && entries.rows[id].writer in users.users
    }

    constructor(users: UserStore)
      ensures Valid() && this.users == users && entries.rows == map[]
    {
      this.users := users;
      entries := EmptyTable();
    }

    /**
     * `addEntry`: the owner, then the writer, must exist; content over the
     * column's length is refused by the database; the stored entry is shown
     * to its writer, who may delete it.
     */
    method AddEntry(owner: UserId, writer: UserId, content: string, now: Time) returns (r: Outcome<EntryView>)
      requires Valid()
      modifies this
      ensures Valid()
      ensures owner !in users.users || writer !in users.users ==> r == Fail(UserNotFound)
      ensures r.Ok? <==> owner in users.users && writer in users.users && |content| <= MAX_ENTRY_CONTENT
      ensures r.Fail? && owner in users.users && writer in users.users ==> r == Fail(ConstraintViolation)
      ensures r.Fail? ==> entries == old(entries)
      ensures r.Ok? ==>
        && entries == old(entries).Insert(Entry(owner, writer, content, now))
        && r.value == ViewOf(old(entries).next, Entry(owner, writer, content, now), users.users, Some(writer))
        && r.value.canDelete
    {
      if owner !in users.users || writer !in users.users {
        return Fail(UserNotFound);
      }
      if |content| > MAX_ENTRY_CONTENT {
        return Fail(ConstraintViolation);
      }
      var e := Entry(owner, writer, content, now);
      var id := entries.next;
      entries := entries.Insert(e);
      r := Ok(ViewOf(id, e, users.users, Some(writer)));
    }

    /**
     * `getEntries`: an unknown owner fails; otherwise every entry on the
     * page, newest first, with `canDelete` computed for the viewer.
     */
    method GetEntries(owner: UserId, viewer: Option<UserId>) returns (r: Outcome<seq<EntryView>>)
      requires Valid()
      ensures r.Fail? <==> owner !in users.users
      ensures r.Fail? ==> r.error == UserNotFound
      ensures r.Ok? ==>
        && NewestFirstOrder(ViewIds(r.value))
        && (forall id :: id in ViewIds(r.value) <==> id in OnPage(entries.rows, owner))
        && (forall i | 0 <= i < |r.value| :: r.value[i].id in entries.rows
              && r.value[i] == ViewOf(r.value[i].id, entries.rows[r.value[i].id], users.users, viewer))
        && |r.value| == |OnPage(entries.rows, owner)|
    {
      if owner !in users.users {
        return Fail(UserNotFound);
      }
      var ids := SelectNewest(entries, (e: Entry) => e.owner == owner, None);
      var views := seq(|ids|, i requires 0 <= i < |ids| && ids[i] in entries.rows && entries.rows[ids[i]].writer in users.users
                         reads this, users =>
                         ViewOf(ids[i], entries.rows[ids[i]], users.users, viewer));
      assert ViewIds(views) == ids;
      ListLengthIsCardinality(ids, OnPage(entries.rows, owner));
      r := Ok(views);
    }

    /**
     * `deleteEntry`: an unknown entry fails; only its writer or the page's
     * owner may remove it.
     */
    method DeleteEntry(id: nat, u: UserId) returns (r: Outcome<()>)
      requires Valid()
      modifies this
      ensures Valid()
      ensures id !in old(entries.rows) ==> r == Fail(EntryNotFound)
      ensures r.Ok? <==> id in old(entries.rows) && MayDelete(old(entries.rows[id]), u)
      ensures r.Fail? && id in old(entries.rows) ==> r == Fail(Forbidden)
      ensures r.Fail? ==> entries == old(entries)
      ensures r.Ok? ==> entries == old(entries).Delete({id})
    {
      if id !in entries.rows {
        return Fail(EntryNotFound);
      }
      var e := entries.rows[id];
      if e.writer != u && e.owner != u {
        return Fail(Forbidden);
      }
      entries := entries.Delete({id});
      r := Ok(());
    }

    /** `getEntryCount`: an unknown owner fails; otherwise the number of entries on the page. */
    function EntryCount(owner: UserId): (r: Outcome<nat>)
      reads this, users
      ensures r.Fail? <==> owner !in users.users
      ensures r.Ok? ==> r.value == |OnPage(entries.rows, owner)|
    {
      if owner !in users.users then Fail(UserNotFound) else Ok(|OnPage(entries.rows, owner)|)
    }
  }
}

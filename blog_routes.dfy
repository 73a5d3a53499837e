/**
 * The owner-scoped blog handlers of app/blog/routes.py. Every handler first
 * runs the `current_user` dependency (HTTPBearer, then get_current_user)
 * and answers its error unchanged; the paginated listing has no such
 * dependency.
 *
 * The CRUD handlers change the blogs table in place through the store; the
 * two listings are read-only queries over a scan of the table.
 */
module BlogRoutes {
  import opened Wrappers
  import opened Envelope
  import opened Database
  import opened AuthUtil
  import opened BlogListing

  /** Blog.id == id AND Blog.user_id == current_user.id, first(). */
  function OwnedBlog(blogs: map<int, Blog>, caller: int, id: int): Option<Blog> {
    if id in blogs && blogs[id].userId == caller then Some(blogs[id]) else None
  }

  /** The answer for an absent or foreign id: empty results, "Record not found.", 404. */
  function NotFoundResponse(): Response {
    ResponseSchema(JObj(map[]), Text(NotFound), HTTP_404_NOT_FOUND)
  }

  /**
   * A blog after `update_blog` sets its title and content and commits: the
   * onupdate clock of updated_at fires only when a column actually changed,
   * since no UPDATE is sent otherwise.
   */
  function Edited(b: Blog, title: string, content: string, now: int): (r: Blog)
    ensures r.id == b.id && r.userId == b.userId && r.createdAt == b.createdAt && r.isActive == b.isActive
    ensures r.title == title && r.content == content
    ensures title == b.title && content == b.content ==> r == b
    ensures title != b.title || content != b.content ==> r.updatedAt == now
  {
    if title == b.title && content == b.content then b
    else b.(title := title, content := content, updatedAt := now)
  }

  /**
   * create_blog: a row owned by the caller with server defaults created_at
   * = updated_at = now and is_active = true, holding the title as the
   * VARCHAR(255) column stores it. A title the column refuses, or a title or
   * content holding NUL, fails the INSERT, which no handler catches, and no
   * row is added.
   */
  method CreateBlog(db: Store, header: Option<string>, now: int, title: string, content: string)
    returns (o: Outcome<Response>)
    requires db.Valid()
    modifies db`blogs, db`nextBlogId
    ensures db.Valid()
    ensures var auth := CurrentUserFromHeader(db.users, db.blacklist, header, now);
      && (!auth.Done? ==>
            o == auth.Propagate() && db.blogs == old(db.blogs) && db.nextBlogId == old(db.nextBlogId))
      && (auth.Done? && !(Storable(title) && Storable(content) && StoredTitle(title).Some?) ==>
            o == Crashed && db.blogs == old(db.blogs) && db.nextBlogId >= old(db.nextBlogId))
      && (auth.Done? && Storable(title) && Storable(content) && StoredTitle(title).Some? ==>
            var b := Blog(old(db.nextBlogId), auth.value.id, StoredTitle(title).value, content, now, now, true);
            && b.id !in old(db.blogs)
            && db.blogs == old(db.blogs)[b.id := b]
            && db.nextBlogId == old(db.nextBlogId) + 1
            && o == Done(ResponseSchema(BlogJson(b), Text(RecordCreated), HTTP_201_CREATED)))
  {
    var auth := CurrentUserFromHeader(db.users, db.blacklist, header, now);
    if !auth.Done? {
      return auth.Propagate();
    }
    var stored := StoredTitle(title);
    if !(Storable(title) && Storable(content) && stored.Some?) {
      return Crashed;
    }
    var id := db.nextBlogId;
    db.nextBlogId := db.nextBlogId + 1;
    var b := Blog(id, auth.value.id, stored.value, content, now, now, true);
    db.blogs := db.blogs[id := b];
    return Done(ResponseSchema(BlogJson(b), Text(RecordCreated), HTTP_201_CREATED));
  }

  /**
   * The simple listing (`get_blogs`, line 25) over a scan of the table:
   * the caller's own blogs, most recently updated first.
   */
  function GetOwnBlogs(users: map<int, User>, blacklist: seq<BlacklistedToken>, rows: seq<Blog>,
                       header: Option<string>, now: int): (o: Outcome<Response>)
    requires KeysMatch(users)
    ensures var auth := CurrentUserFromHeader(users, blacklist, header, now);
      && (!auth.Done? ==> o == auth.Propagate())
      && (auth.Done? ==>
            && o.Done? && o.value.statusCode == HTTP_200_OK
            && ReadEnvelope(o.value) == Some(Envelope(Text(RecordRetrieved), HTTP_200_OK,
                                                      BlogListJson(OwnBlogsNewestFirst(rows, auth.value.id)))))
  {
    var auth := CurrentUserFromHeader(users, blacklist, header, now);
    if !auth.Done? then auth.Propagate()
    else Done(ResponseSchema(BlogListJson(OwnBlogsNewestFirst(rows, auth.value.id)), Text(RecordRetrieved), HTTP_200_OK))
  }

  /** A table scan holds each row once. */
  lemma ScanIsDistinct(rows: seq<Blog>, blogs: map<int, Blog>)
    requires IsScanOf(rows, blogs)
    ensures Distinct(rows)
  {
  }

  /**
   * Over a scan of the table, the simple listing holds exactly the caller's
   * rows of the table, each once.
   */
  lemma OwnListingIsCallersRows(rows: seq<Blog>, blogs: map<int, Blog>, caller: int)
    requires IsScanOf(rows, blogs)
    ensures forall b :: b in OwnBlogsNewestFirst(rows, caller) <==>
              b.id in blogs && blogs[b.id] == b && b.userId == caller
    ensures |OwnBlogsNewestFirst(rows, caller)| == |set b | b in rows && b.userId == caller|
  {
    ScanIsDistinct(rows, blogs);
    SelectCount(rows, (b: Blog) => b.userId == caller);
    assert (set b | b in rows && b.userId == caller)
        == (set b | b in rows && ((b: Blog) => b.userId == caller)(b));
  }

  /** get_blog: the caller's blog with this id, or 404 with empty results. */
  function GetBlog(users: map<int, User>, blacklist: seq<BlacklistedToken>, blogs: map<int, Blog>,
                   header: Option<string>, now: int, id: int): (o: Outcome<Response>)
    requires KeysMatch(users)
    ensures var auth := CurrentUserFromHeader(users, blacklist, header, now);
      && (!auth.Done? ==> o == auth.Propagate())
      && (auth.Done? && id in blogs && blogs[id].userId == auth.value.id ==>
            o == Done(ResponseSchema(BlogJson(blogs[id]), Text(RecordRetrieved), HTTP_200_OK)))
      && (auth.Done? && !(id in blogs && blogs[id].userId == auth.value.id) ==>
            o == Done(NotFoundResponse()))
  {
    var auth := CurrentUserFromHeader(users, blacklist, header, now);
    if !auth.Done? then auth.Propagate()
    else match OwnedBlog(blogs, auth.value.id, id)
      case None => Done(NotFoundResponse())
      case Some(b) => Done(ResponseSchema(BlogJson(b), Text(RecordRetrieved), HTTP_200_OK))
  }

  /**
   * Another user's blog is indistinguishable from a missing one: the answer
   * is the same as for the table without that row, and the same as for any
   * id that does not exist.
   */
  lemma ForeignBlogLooksMissing(users: map<int, User>, blacklist: seq<BlacklistedToken>, blogs: map<int, Blog>,
                                header: Option<string>, now: int, id: int, absent: int)
    requires KeysMatch(users)
    requires CurrentUserFromHeader(users, blacklist, header, now).Done?
    requires id in blogs && blogs[id].userId != CurrentUserFromHeader(users, blacklist, header, now).value.id
    requires absent !in blogs
    ensures GetBlog(users, blacklist, blogs, header, now, id) == GetBlog(users, blacklist, blogs - {id}, header, now, id)
    ensures GetBlog(users, blacklist, blogs, header, now, id) == GetBlog(users, blacklist, blogs, header, now, absent)
    ensures GetBlog(users, blacklist, blogs, header, now, id) == Done(NotFoundResponse())
  {
  }

  /** What get_blog answers depends only on the caller's own blogs. */
  lemma GetBlogSeesOnlyOwnBlogs(users: map<int, User>, blacklist: seq<BlacklistedToken>,
                                blogs1: map<int, Blog>, blogs2: map<int, Blog>,
                                header: Option<string>, now: int, id: int)
    requires KeysMatch(users)
    requires CurrentUserFromHeader(users, blacklist, header, now).Done?
    requires var caller := CurrentUserFromHeader(users, blacklist, header, now).value.id;
      OwnedBlog(blogs1, caller, id) == OwnedBlog(blogs2, caller, id)
    ensures GetBlog(users, blacklist, blogs1, header, now, id) == GetBlog(users, blacklist, blogs2, header, now, id)
  {
  }

  /**
   * update_blog: on the caller's blog, sets title and content and answers
   * the updated row, its title as the column stores it; on an absent or
   * foreign id, 404 and no change. A title the column refuses, or a title or
   * content holding NUL, fails the UPDATE, unhandled, and the row keeps its
   * values. Whether the row changed is judged on the values as sent.
   */
  method UpdateBlog(db: Store, header: Option<string>, now: int, id: int, title: string, content: string)
    returns (o: Outcome<Response>)
    requires db.Valid()
    modifies db`blogs
    ensures db.Valid()
    ensures var auth := CurrentUserFromHeader(db.users, db.blacklist, header, now);
      && (!auth.Done? ==> o == auth.Propagate() && db.blogs == old(db.blogs))
      && (auth.Done? && OwnedBlog(old(db.blogs), auth.value.id, id).None? ==>
            o == Done(NotFoundResponse()) && db.blogs == old(db.blogs))
      && (auth.Done? && OwnedBlog(old(db.blogs), auth.value.id, id).Some?
          && !(Storable(title) && Storable(content) && StoredTitle(title).Some?) ==>
            o == Crashed && db.blogs == old(db.blogs))
      && (auth.Done? && OwnedBlog(old(db.blogs), auth.value.id, id).Some?
          && Storable(title) && Storable(content) && StoredTitle(title).Some? ==>
            var b := Edited(old(db.blogs)[id], title, content, now).(title := StoredTitle(title).value);
            && db.blogs == old(db.blogs)[id := b]
            && o == Done(ResponseSchema(BlogJson(b), Text(RecordUpdated), HTTP_200_OK)))
  {
    var auth := CurrentUserFromHeader(db.users, db.blacklist, header, now);
    if !auth.Done? {
      return auth.Propagate();
    }
    var found := OwnedBlog(db.blogs, auth.value.id, id);
    if found.None? {
      return Done(NotFoundResponse());
    }
    var stored := StoredTitle(title);
    if !(Storable(title) && Storable(content) && stored.Some?) {
      return Crashed;
    }
    var b := Edited(found.value, title, content, now).(title := stored.value);
    db.blogs := db.blogs[id := b];
    return Done(ResponseSchema(BlogJson(b), Text(RecordUpdated), HTTP_200_OK));
  }

  /**
   * delete_blog: removes the caller's blog and answers 204 with empty
   * results; on an absent or foreign id, 404 and no change.
   */
  method DeleteBlog(db: Store, header: Option<string>, now: int, id: int) returns (o: Outcome<Response>)
    requires db.Valid()
    modifies db`blogs
    ensures db.Valid()
    ensures var auth := CurrentUserFromHeader(db.users, db.blacklist, header, now);
      && (!auth.Done? ==> o == auth.Propagate() && db.blogs == old(db.blogs))
      && (auth.Done? && OwnedBlog(old(db.blogs), auth.value.id, id).None? ==>
            o == Done(NotFoundResponse()) && db.blogs == old(db.blogs))
      && (auth.Done? && OwnedBlog(old(db.blogs), auth.value.id, id).Some? ==>
            && db.blogs == old(db.blogs) - {id}
            && o == Done(ResponseSchema(JObj(map[]), Text(RecordDeleted), HTTP_204_NO_CONTENT)))
  {
    var auth := CurrentUserFromHeader(db.users, db.blacklist, header, now);
    if !auth.Done? {
      return auth.Propagate();
    }
    if OwnedBlog(db.blogs, auth.value.id, id).None? {
      return Done(NotFoundResponse());
    }
    db.blogs := db.blogs - {id};
    return Done(ResponseSchema(JObj(map[]), Text(RecordDeleted), HTTP_204_NO_CONTENT));
  }

  /** The "results" object of the paginated listing. */
  function PageJson(p: Page): (j: Json)
    ensures j.JObj? && j.fields.Keys == {"items", "page", "limit", "total", "pages"}
  {
    JObj(map["items" := BlogListJson(p.items), "page" := JInt(p.page), "limit" := JInt(p.limit),
             "total" := JInt(p.total), "pages" := JInt(p.pages)])
  }

  /** PostgreSQL's OFFSET is a bigint: the largest offset it accepts. */
  const BIGINT_MAX := 0x7fff_ffff_ffff_ffff

  /**
   * The paginated listing (`get_blogs`, line 65): no authentication, 200
   * with the page. A search term holding NUL cannot be sent as a query
   * parameter, and an offset past the bigint range is refused by PostgreSQL;
   * either way the request fails unhandled.
   */
  function GetBlogsPage(rows: seq<Blog>, page: int, limit: int, sortBy: string, order: Order,
                        search: Option<string>): (o: Outcome<Response>)
    requires page >= 1 && 1 <= limit <= 100
    ensures o.Crashed? <==> (search.Some? && !Storable(search.value)) || Offset(page, limit) > BIGINT_MAX
    ensures !o.Crashed? ==>
              && o.Done? && o.value.statusCode == HTTP_200_OK
              && ReadEnvelope(o.value) == Some(Envelope(Text(RecordRetrieved), HTTP_200_OK,
                                                        PageJson(ListPage(rows, page, limit, sortBy, order, search))))
  {
    if (search.Some? && !Storable(search.value)) || Offset(page, limit) > BIGINT_MAX then Crashed
    else Done(ResponseSchema(PageJson(ListPage(rows, page, limit, sortBy, order, search)), Text(RecordRetrieved), HTTP_200_OK))
  }

  /** A blog just created is what get_blog answers for its id, to the same caller. */
  method CreateThenGet(db: Store, header: Option<string>, now: int, title: string, content: string)
    returns (created: Outcome<Response>, fetched: Outcome<Response>)
    requires db.Valid()
    modifies db`blogs, db`nextBlogId
    ensures created.Done? ==>
              && fetched.Done?
              && fetched.value.statusCode == HTTP_200_OK
              && ReadEnvelope(fetched.value).Some? && ReadEnvelope(created.value).Some?
              && ReadEnvelope(fetched.value).value.results == ReadEnvelope(created.value).value.results
  {
    var id := db.nextBlogId;
    created := CreateBlog(db, header, now, title, content);
    fetched := GetBlog(db.users, db.blacklist, db.blogs, header, now, id);
  }

  /** Deleting a blog makes get_blog answer 404 for it, and a second delete 404 too. */
  method DeleteThenGet(db: Store, header: Option<string>, now: int, id: int)
    returns (deleted: Outcome<Response>, fetched: Outcome<Response>, again: Outcome<Response>)
    requires db.Valid()
    modifies db`blogs
    ensures deleted.Done? && deleted.value.statusCode == HTTP_204_NO_CONTENT ==>
              fetched == Done(NotFoundResponse()) && again == Done(NotFoundResponse())
  {
    deleted := DeleteBlog(db, header, now, id);
    fetched := GetBlog(db.users, db.blacklist, db.blogs, header, now, id);
    again := DeleteBlog(db, header, now, id);
  }
}

/**
 * The three tables of app/auth/model.py and app/blog/model.py (users, blogs,
 * blacklisted_tokens) held in one in-memory store that the route handlers
 * update in place, as they update the database through their session.
 *
 * Timestamps are integer seconds; ids are the database's serial counters,
 * which start at 1 and are never reused.
 */
module Database {
  import opened Wrappers
  import opened Envelope

  datatype User = User(
    id: int,
    email: string,
    hashedPassword: string,
    firstName: string,
    lastName: string,
    isActive: bool)

  datatype Blog = Blog(
    id: int,
    userId: int,
    title: string,
    content: string,
    createdAt: int,
    updatedAt: int,
    isActive: bool)

  datatype BlacklistedToken = BlacklistedToken(token: string, expiresAt: int)

  /** blogs.title is String(255): the database refuses a longer title. */
  const TITLE_MAX_LENGTH := 255

  /** PostgreSQL text cannot hold the character U+0000; the driver refuses such a value. */
  predicate Storable(s: string) {
    '\0' !in s
  }

  /**
   * What PostgreSQL stores in the VARCHAR(255) title column: a longer value
   * is refused unless every character past the limit is a space, and is then
   * cut to the limit.
   */
  function StoredTitle(title: string): (r: Option<string>)
    ensures r.Some? <==> forall i :: TITLE_MAX_LENGTH <= i < |title| ==> title[i] == ' '
    ensures r.Some? ==> |r.value| <= TITLE_MAX_LENGTH && r.value <= title
    ensures r.Some? ==> forall i :: |r.value| <= i < |title| ==> title[i] == ' '
    ensures |title| <= TITLE_MAX_LENGTH ==> r == Some(title)
    ensures r.Some? && |title| > TITLE_MAX_LENGTH ==> r.value == title[..TITLE_MAX_LENGTH]
  {
    if |title| <= TITLE_MAX_LENGTH then Some(title)
    else if forall i :: TITLE_MAX_LENGTH <= i < |title| ==> title[i] == ' ' then Some(title[..TITLE_MAX_LENGTH])
    else None
  }

  /** Every row is stored under its own primary key. */
  ghost predicate KeysMatch(users: map<int, User>) {
    forall id :: id in users ==> users[id].id == id
  }

  /** users.email is declared unique. */
  ghost predicate EmailsUnique(users: map<int, User>) {
    forall i, j :: i in users && j in users && users[i].email == users[j].email ==> i == j
  }

  predicate EmailTaken(users: map<int, User>, email: string) {
    exists id :: id in users && users[id].email == email
  }

  /** The rows of the blogs table, each once, in the order a scan returns them. */
  ghost predicate IsScanOf(rows: seq<Blog>, blogs: map<int, Blog>) {
    && (forall b :: b in rows <==> b.id in blogs && blogs[b.id] == b)
    && (forall i, j :: 0 <= i < j < |rows| ==> rows[i].id != rows[j].id)
  }

  /** UserResponse: the public projection of a user; the password hash is not part of it. */
  function UserResponseJson(u: User): (j: Json)
    ensures j.JObj? && j.fields.Keys == {"id", "email", "first_name", "last_name"}
    ensures "hashed_password" !in j.fields
  {
    JObj(map["id" := JInt(u.id), "email" := JStr(u.email),
             "first_name" := JStr(u.firstName), "last_name" := JStr(u.lastName)])
  }

  /** A blog row as jsonable_encoder renders its column attributes. */
  function BlogJson(b: Blog): Json {
    JObj(map["id" := JInt(b.id), "user_id" := JInt(b.userId), "title" := JStr(b.title),
             "content" := JStr(b.content), "created_at" := JInt(b.createdAt),
             "updated_at" := JInt(b.updatedAt), "is_active" := JBool(b.isActive)])
  }

  function BlogListJson(bs: seq<Blog>): Json {
    JArr(seq(|bs|, i requires 0 <= i < |bs| => BlogJson(bs[i])))
  }

  class Store {
    var users: map<int, User>
    var blogs: map<int, Blog>
    /** Append-only: the routes add entries and nothing ever removes one. */
    var blacklist: seq<BlacklistedToken>
    var nextUserId: int
    var nextBlogId: int

    /**
     * The schema's constraints: primary keys agree with the rows and lie
     * below the counters, every blog's owner exists (the foreign key),
     * titles fit the column, and emails are unique.
     */
    ghost predicate Valid()
      reads this
    {
      && 1 <= nextUserId && 1 <= nextBlogId
      && (forall id :: id in users ==> 1 <= id < nextUserId)
      && KeysMatch(users)
      && (forall id :: id in blogs ==>
            1 <= id < nextBlogId && blogs[id].id == id
            && blogs[id].userId in users && |blogs[id].title| <= TITLE_MAX_LENGTH)
      && EmailsUnique(users)
    }

    constructor ()
      ensures Valid()
      ensures users == map[] && blogs == map[] && blacklist == []
    {
      users, blogs, blacklist := map[], map[], [];
      nextUserId, nextBlogId := 1, 1;
    }
  }
}

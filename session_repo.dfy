/** rchat/repository/session.py: creating a login session row. */
module SessionRepo {
  import opened Wrappers
  import opened Schemas
  import opened SqlBuild

  datatype SessionCreate = SessionCreate(
    id: string,
    userId: UserId,
    ip: Option<string>,
    userAgent: Option<string>,
    country: Option<string>,
    isActive: bool)

  /** An executed `insert into <table> (<names>) values (<placeholders>)` with its bound values. */
  datatype Insert = Insert(table: string, fieldNames: string, placeholders: string, values: seq<SqlValue>)

  function OptText(x: Option<string>): SqlValue
  {
    if x.Some? then Str(x.value) else Null
  }

  /** `session_data.model_dump()`: the fields of `SessionCreate` in declaration order. */
  function SessionDump(s: SessionCreate): (d: seq<Field>)
    ensures |d| == 6
  {
    [("id", Str(s.id)), ("user_id", Uuid(s.userId)), ("ip", OptText(s.ip)),
     ("user_agent", OptText(s.userAgent)), ("country", OptText(s.country)), ("is_active", Bool(s.isActive))]
  }

  /** The value bound to column `name` in an insert, if that column is listed. */
  function Column(names: seq<string>, values: seq<SqlValue>, name: string): Option<SqlValue>
    requires |names| == |values|
  {
    if names == [] then None
    else if names[0] == name then Some(values[0])
    else Column(names[1..], values[1..], name)
  }

  function OptTextOf(v: SqlValue): Option<Option<string>>
  {
    match v
    case Null => Some(None)
    case Str(t) => Some(Some(t))
    case _ => None
  }

  /** Reads a session back from the columns and values of an insert. */
  function DecodeSession(names: seq<string>, values: seq<SqlValue>): Option<SessionCreate>
    requires |names| == |values|
  {
    var id := Column(names, values, "id");
    var user := Column(names, values, "user_id");
    var ip := Column(names, values, "ip");
    var agent := Column(names, values, "user_agent");
    var country := Column(names, values, "country");
    var active := Column(names, values, "is_active");
    if id.Some? && id.value.Str? && user.Some? && user.value.Uuid? && active.Some? && active.value.Bool?
       && ip.Some? && OptTextOf(ip.value).Some? && agent.Some? && OptTextOf(agent.value).Some?
       && country.Some? && OptTextOf(country.value).Some?
    then Some(SessionCreate(id.value.text, user.value.uuid, OptTextOf(ip.value).value,
                            OptTextOf(agent.value).value, OptTextOf(country.value).value, active.value.flag))
    else None
  }

  function Values(fields: seq<Field>): (vs: seq<SqlValue>)
    ensures |vs| == |fields|
  {
    seq(|fields|, i requires 0 <= i < |fields| => fields[i].1)
  }

  /** The insert that `create` executes for session `s`. */
  function SessionInsert(s: SessionCreate): (ins: Insert)
    ensures ins.table == "session" && |ins.values| == 6
  {
    Insert("session", Join(", ", Names(SessionDump(s))), Join(", ", Placeholders(6)), Values(SessionDump(s)))
  }

  /** The column names and values of the session dump, in order. */
  lemma SessionColumns(s: SessionCreate)
    ensures Names(SessionDump(s)) == ["id", "user_id", "ip", "user_agent", "country", "is_active"]
    ensures Values(SessionDump(s)) == [Str(s.id), Uuid(s.userId), OptText(s.ip), OptText(s.userAgent),
                                       OptText(s.country), Bool(s.isActive)]
  {
  }

  /** The row written for `s`, read back column by column, is `s`: names and values stay aligned. */
  lemma SessionInsertRoundTrip(s: SessionCreate)
    ensures DecodeSession(Names(SessionDump(s)), Values(SessionDump(s))) == Some(s)
  {
    SessionColumns(s);
    var names := ["id", "user_id", "ip", "user_agent", "country", "is_active"];
    var values := [Str(s.id), Uuid(s.userId), OptText(s.ip), OptText(s.userAgent), OptText(s.country), Bool(s.isActive)];
    ColumnAt(names, values, 0);
    ColumnAt(names, values, 1);
    ColumnAt(names, values, 2);
    ColumnAt(names, values, 3);
    ColumnAt(names, values, 4);
    ColumnAt(names, values, 5);
  }

  /** The first column with a name holds that name's value. */
  lemma {:induction false} ColumnAt(names: seq<string>, values: seq<SqlValue>, k: nat)
    requires |names| == |values| && k < |names|
    requires forall j :: 0 <= j < k ==> names[j] != names[k]
    ensures Column(names, values, names[k]) == Some(values[k])
  {
    if k > 0 {
      ColumnAt(names[1..], values[1..], k - 1);
    }
  }

  /** The column list and placeholder list of the session insert, split back, are the six fields and `$1..$6`. */
  lemma SessionInsertShape(s: SessionCreate)
    ensures SplitComma(SessionInsert(s).fieldNames) == ["id", "user_id", "ip", "user_agent", "country", "is_active"]
    ensures SplitComma(SessionInsert(s).placeholders) == Placeholders(6)
    ensures |SessionInsert(s).values| == 6
  {
    SessionColumns(s);
    var names := Names(SessionDump(s));
    forall i | 0 <= i < |names| ensures NoComma(names[i]) {
    }
    JoinSplitRoundTrip(names);
    var ps := Placeholders(6);
    forall i | 0 <= i < 6 ensures NoComma(ps[i]) {
      PlaceholderNoComma(i + 1);
    }
    JoinSplitRoundTrip(ps);
  }

  lemma {:induction false} NatToStringNoComma(n: nat)
    ensures NoComma(NatToString(n))
    decreases n
  {
    if 10 <= n {
      NatToStringNoComma(n / 10);
    }
  }

  lemma PlaceholderNoComma(n: nat)
    ensures NoComma(Placeholder(n))
  {
    NatToStringNoComma(n);
  }

  class SessionRepository {
    /** The inserts executed against the `session` table, oldest first. */
    var executed: seq<Insert>

    constructor()
      ensures executed == []
    {
      executed := [];
    }

    /**
     * `create`: the new session is active, has no country, takes user, ip
     * and user agent from the arguments, and its id is the random token
     * `token` (`token_urlsafe(32)`). Exactly that session is inserted and returned.
     */
    method Create(userId: UserId, token: string, ip: Option<string> := None, userAgent: Option<string> := None)
      returns (s: SessionCreate)
      modifies this
      ensures s.isActive && s.country == None
      ensures s.id == token && s.userId == userId && s.ip == ip && s.userAgent == userAgent
      ensures executed == old(executed) + [SessionInsert(s)]
    {
      s := SessionCreate(token, userId, ip, userAgent, None, true);
      var dump := SessionDump(s);
      var fieldNames := Join(", ", Names(dump));
      var placeholders := Join(", ", seq(|dump|, (i: int) requires 0 <= i => Placeholder(i + 1)));
      executed := executed + [Insert("session", fieldNames, placeholders, Values(dump))];
    }
  }
}

/** Choosing the database from the MongoDB connection string, in the two `init_db`
    functions (app/database/connection.py and backend/app/database/connection.py), and the
    `get_db` dependency both define. Connecting, SSL and Beanie set-up are left out. */
module DatabaseConnection {
  import opened Outcomes

  const DefaultDbName := "gpcc_db"
  /** The URI each `init_db` uses when the environment variable is missing. */
  const AppDefaultUri := "mongodb://localhost:27017/church_app"
  const BackendDefaultUri := "mongodb://localhost:27017"

  /** Python's `s.split(c)` for a one-character separator: the pieces between separators,
      so there is always one piece more than there are separators. */
  function Split(s: string, c: char): (r: seq<string>)
    ensures |r| >= 1
  {
    if s == [] then [""]
    else
      var rest := Split(s[1..], c);
      if s[0] == c then [""] + rest else [[s[0]] + rest[0]] + rest[1..]
  }

  function Last(pieces: seq<string>): string
    requires |pieces| >= 1
  {
    pieces[|pieces| - 1]
  }

  /** No piece holds the separator, and every character of a piece is in the text. */
  lemma {:induction false} SplitPieceChars(s: string, c: char, i: nat)
    requires i < |Split(s, c)|
    ensures c !in Split(s, c)[i]
    ensures forall x :: x in Split(s, c)[i] ==> x in s
  {
    if s != [] {
      var rest := Split(s[1..], c);
      assert forall x :: x in s[1..] ==> x in s;
      if s[0] == c {
        if i > 0 {
          SplitPieceChars(s[1..], c, i - 1);
        }
      } else if i == 0 {
        SplitPieceChars(s[1..], c, 0);
      } else {
        SplitPieceChars(s[1..], c, i);
      }
    }
  }

  /** A text without the separator is its own single piece. */
  lemma {:induction false} SplitNoSeparator(s: string, c: char)
    requires c !in s
    ensures Split(s, c) == [s]
  {
    if s != [] {
      assert forall x :: x in s[1..] ==> x in s;
      SplitNoSeparator(s[1..], c);
      assert [s[0]] + s[1..] == s;
    }
  }

  /** Splitting at one separator splits each side on its own. */
  lemma {:induction false} SplitJoin(a: string, b: string, c: char)
    ensures Split(a + [c] + b, c) == Split(a, c) + Split(b, c)
  {
    if a == [] {
      assert a + [c] + b == [c] + b;
      assert ([c] + b)[1..] == b;
    } else {
      assert (a + [c] + b)[1..] == a[1..] + [c] + b;
      SplitJoin(a[1..], b, c);
    }
  }

  /** `uri.split("/")[-1].split("?")[0]`. */
  function LastSegmentName(uri: string): (r: string)
    ensures '/' !in r && '?' !in r
  {
    var segment := Last(Split(uri, '/'));
    SplitPieceChars(uri, '/', |Split(uri, '/')| - 1);
    SplitPieceChars(segment, '?', 0);
    Split(segment, '?')[0]
  }

  /** The app variant: the last segment's name, or `gpcc_db` when there is no "/" or the name
      is empty. */
  function DbNameApp(uri: string): (r: string)
    ensures r != "" && '/' !in r && '?' !in r
    ensures '/' !in uri ==> r == DefaultDbName
    ensures '/' in uri && LastSegmentName(uri) != "" ==> r == LastSegmentName(uri)
  {
    if '/' in uri then
      var name := LastSegmentName(uri);
      if name == "" then DefaultDbName else name
    else DefaultDbName
  }

  /** The backend variant: the same extraction without the empty-name fallback. */
  function DbNameBackend(uri: string): (r: string)
    ensures '/' !in r && '?' !in r
    ensures '/' !in uri ==> r == DefaultDbName
    ensures '/' in uri ==> r == LastSegmentName(uri)
  {
    if '/' in uri then LastSegmentName(uri) else DefaultDbName
  }

  /** A URI of the form `prefix/name?options`, whose part after the last "/" holds no "/",
      names the database `name`. */
  lemma {:induction false} NameAfterLastSlash(prefix: string, name: string, options: string)
    requires '/' !in name && '/' !in options && '?' !in name
    ensures LastSegmentName(prefix + "/" + name + "?" + options) == name
  {
    var tail := name + "?" + options;
    assert prefix + "/" + name + "?" + options == prefix + ['/'] + tail;
    SplitJoin(prefix, tail, '/');
    assert '/' !in tail by {
      assert forall k :: 0 <= k < |tail| ==> tail[k] == '?' || tail[k] in name || tail[k] in options;
    }
    SplitNoSeparator(tail, '/');
    SplitJoin(name, options, '?');
    SplitNoSeparator(name, '?');
  }

  /** Both variants read `mongodb://host/name?options` as the database `name`. */
  lemma VariantsAgreeOnNamedUri(host: string, name: string, options: string)
    requires '/' !in name && '/' !in options && '?' !in name && name != ""
    ensures DbNameApp("mongodb://" + host + "/" + name + "?" + options) == name
    ensures DbNameBackend("mongodb://" + host + "/" + name + "?" + options) == name
  {
    var uri := "mongodb://" + host + "/" + name + "?" + options;
    assert uri == ("mongodb://" + host) + "/" + name + "?" + options;
    NameAfterLastSlash("mongodb://" + host, name, options);
    assert uri[9] == '/';
  }

  /** `mongodb://host` (no path) splits into "mongodb:", "" and the host. */
  lemma {:induction false} SplitHostOnly(host: string)
    requires '/' !in host
    ensures Split("mongodb://" + host, '/') == ["mongodb:", "", host]
  {
    assert "mongodb://" + host == "mongodb:" + ['/'] + ("" + ['/'] + host);
    SplitJoin("mongodb:", "" + ['/'] + host, '/');
    assert "" + ['/'] + host == [] + ['/'] + host;
    SplitJoin("", host, '/');
    SplitNoSeparator("mongodb:", '/');
    SplitNoSeparator(host, '/');
  }

  /** As `NameAfterLastSlash`, for a URI with no options part. */
  lemma NameAfterLastSlashNoOptions(prefix: string, name: string)
    requires '/' !in name && '?' !in name
    ensures LastSegmentName(prefix + "/" + name) == name
  {
    assert prefix + "/" + name == prefix + ['/'] + name;
    SplitJoin(prefix, name, '/');
    SplitNoSeparator(name, '/');
    SplitNoSeparator(name, '?');
  }

  /** The backend extraction as evidently intended: the database is the path after the
      host, and `gpcc_db` when there is none or it is empty. */
  function DbNameIntended(uri: string): (r: string)
    ensures r != ""
  {
    var pieces := Split(uri, '/');
    if |pieces| >= 4 then
      var name := Split(pieces[3], '?')[0];
      if name == "" then DefaultDbName else name
    else DefaultDbName
  }

  /** With no path, the last segment is the host itself: the backend variant names the
      database after the host, the intended extraction falls back to `gpcc_db`. */
  lemma HostOnlyUri(host: string)
    requires '/' !in host && '?' !in host
    ensures DbNameBackend("mongodb://" + host) == host
    ensures DbNameIntended("mongodb://" + host) == DefaultDbName
  {
    SplitHostOnly(host);
    SplitNoSeparator(host, '?');
    assert ("mongodb://" + host)[9] == '/';
  }

  /** The backend's default URI selects a database called "localhost:27017"; the intended
      extraction selects `gpcc_db`. */
  lemma BackendDefaultUriNamesHost()
    ensures DbNameBackend(BackendDefaultUri) == "localhost:27017"
    ensures DbNameIntended(BackendDefaultUri) == DefaultDbName
  {
    assert BackendDefaultUri == "mongodb://" + "localhost:27017";
    HostOnlyUri("localhost:27017");
  }

  /** The app variant's default URI selects "church_app". */
  lemma AppDefaultUriNamesDatabase()
    ensures DbNameApp(AppDefaultUri) == "church_app"
  {
    assert AppDefaultUri == "mongodb://localhost:27017" + "/" + "church_app";
    NameAfterLastSlashNoOptions("mongodb://localhost:27017", "church_app");
  }

  /** The intended extraction reads `mongodb://host/name?options` as the app variant does. */
  lemma DbNameIntendedNamedUri(host: string, name: string, options: string)
    requires '/' !in host && '/' !in name && '/' !in options && '?' !in name && name != ""
    ensures DbNameIntended("mongodb://" + host + "/" + name + "?" + options) == name
    ensures DbNameIntended("mongodb://" + host + "/" + name + "?" + options)
         == DbNameApp("mongodb://" + host + "/" + name + "?" + options)
  {
    SplitHostOnly(host);
    var uri := "mongodb://" + host + "/" + name + "?" + options;
    var tail := name + "?" + options;
    assert uri == ("mongodb://" + host) + ['/'] + tail;
    SplitJoin("mongodb://" + host, tail, '/');
    assert '/' !in tail by {
      assert forall k :: 0 <= k < |tail| ==> tail[k] == '?' || tail[k] in name || tail[k] in options;
    }
    SplitNoSeparator(tail, '/');
    assert Split(uri, '/') == ["mongodb:", "", host, tail];
    SplitJoin(name, options, '?');
    SplitNoSeparator(name, '?');
    VariantsAgreeOnNamedUri(host, name, options);
  }

  /** `get_db`: the database set by `init_db`, or a `RuntimeError` that the request turns
      into a server error. */
  function GetDb<D>(db: Option<D>): (r: Outcome<D>)
    ensures r.Ok? <==> db.Some?
    ensures r.Ok? ==> r.value == db.value
    ensures r.Err? ==> r == Err(InternalError, ServerErrorDetail)
  {
    match db
    case None => Err(InternalError, ServerErrorDetail)
    case Some(d) => Ok(d)
  }
}

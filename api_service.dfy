/** The client's `ApiService`: a token cached in a field and kept in the
    browser's local storage, the request headers built from it, and the
    query string of the listing request. */
module ApiClient {
  import opened Wrappers
  import opened Search
  import opened Text
  import opened Schema
  import Listing

  /** The storage key of the token. */
  const AuthTokenKey := "authToken"
  const ContentType := ("Content-Type", "application/json")

  /** A header list or a query string: name/value pairs in the order they were added. */
  type Pairs = seq<(string, string)>

  /** The value of the first pair with that name, as `URLSearchParams.get`
      and a header lookup return it. */
  function Lookup(pairs: Pairs, name: string): (r: Option<string>)
    ensures r.Some? ==> exists i :: 0 <= i < |pairs| && pairs[i] == (name, r.value)
    ensures r.None? ==> forall i :: 0 <= i < |pairs| ==> pairs[i].0 != name
  {
    match FirstIndex(pairs, (pair: (string, string)) => pair.0 == name)
    case None => None
    case Some(i) => Some(pairs[i].1)
  }

  /** The value of an `Authorization` header carrying a bearer token, in the
      request-header form of section 2.1 of RFC 6750. */
  function BearerCredentials(token: string): string
  {
    "Bearer " + token
  }

  /** Reads the token back out of an `Authorization` value. */
  function ParseBearer(value: string): Option<string>
  {
    if |value| > 7 && value[..7] == "Bearer " then Some(value[7..]) else None
  }

  /** A non-empty token survives the header: reading the value back gives
      the token, and only the value written for it reads back as it. */
  lemma BearerRoundTrip(token: string, value: string)
    requires token != ""
    ensures ParseBearer(BearerCredentials(token)) == Some(token)
    ensures ParseBearer(value) == Some(token) ==> value == BearerCredentials(token)
  {
    var v := BearerCredentials(token);
    assert v[..7] == "Bearer " && v[7..] == token;
    if ParseBearer(value) == Some(token) {
      assert value == value[..7] + value[7..];
    }
  }

  /** The headers `getHeaders` builds for a token. */
  function HeadersFor(token: Option<string>): (h: Pairs)
    ensures Lookup(h, "Content-Type") == Some("application/json")
    ensures Lookup(h, "Authorization").Some? <==> Truthy(token)
    ensures Truthy(token) ==> ParseBearer(Lookup(h, "Authorization").value) == token
  {
    if Truthy(token) then
      BearerRoundTrip(token.value, BearerCredentials(token.value));
      var h := [ContentType, ("Authorization", BearerCredentials(token.value))];
      assert h[1].0 == "Authorization";
      h
    else [ContentType]
  }

  /** The browser's `localStorage`. */
  class LocalStorage {
    var items: map<string, string>

    constructor (items: map<string, string>)
      ensures this.items == items
    {
      this.items := items;
    }

    /** `getItem`: `null` for a missing key. */
    function GetItem(key: string): (r: Option<string>)
      reads this
      ensures r.Some? <==> key in items
      ensures r.Some? ==> r.value == items[key]
    {
      if key in items then Some(items[key]) else None
    }

    method SetItem(key: string, value: string)
      modifies this
      ensures items == old(items)[key := value]
    {
      items := items[key := value];
    }

    method RemoveItem(key: string)
      modifies this
      ensures items == old(items) - {key}
    {
      items := items - {key};
    }
  }

  class ApiService {
    /** The in-memory copy of the token; `None` is `null`. */
    var token: Option<string>
    const storage: LocalStorage

    /** A token held in memory is the one in storage. */
    ghost predicate Valid()
      reads this, storage
    {
      Truthy(token) ==> storage.GetItem(AuthTokenKey) == token
    }

    constructor (storage: LocalStorage)
      ensures this.storage == storage && token == None && Valid()
    {
      this.storage := storage;
      token := None;
    }

    method SetToken(t: string)
      requires Valid()
      modifies this, storage
      ensures Valid()
      ensures token == Some(t)
      ensures storage.items == old(storage.items)[AuthTokenKey := t]
    {
      token := Some(t);
      storage.SetItem(AuthTokenKey, t);
    }

    /** The memory copy when it is truthy, otherwise whatever storage holds,
        which then becomes the memory copy. */
    method GetToken() returns (t: Option<string>)
      requires Valid()
      modifies this
      ensures Valid() && unchanged(storage)
      ensures t == (if Truthy(old(token)) then old(token) else storage.GetItem(AuthTokenKey))
      ensures token == t
      ensures t == storage.GetItem(AuthTokenKey)
    {
      if !Truthy(token) {
        token := storage.GetItem(AuthTokenKey);
      }
      t := token;
    }

    method ClearToken()
      requires Valid()
      modifies this, storage
      ensures Valid()
      ensures token == None
      ensures storage.items == old(storage.items) - {AuthTokenKey}
      ensures storage.GetItem(AuthTokenKey) == None
    {
      token := None;
      storage.RemoveItem(AuthTokenKey);
    }

    /** The JSON content type always, and the bearer header when the token
        is truthy. Reading the token may fill the memory copy. */
    method GetHeaders() returns (headers: Pairs)
      requires Valid()
      modifies this
      ensures Valid() && unchanged(storage)
      ensures headers == HeadersFor(storage.GetItem(AuthTokenKey))
      ensures token == storage.GetItem(AuthTokenKey)
    {
      headers := [ContentType];
      var t := GetToken();
      if Truthy(t) {
        headers := headers + [("Authorization", BearerCredentials(t.value))];
      }
    }
  }

  /** The query string `getEntries` appends to the listing URL. */
  method EntriesQuery(page: int, limit: int, search: string) returns (params: Pairs)
    ensures Lookup(params, "page") == Some(IntString(page))
    ensures Lookup(params, "limit") == Some(IntString(limit))
    ensures Lookup(params, "search").Some? <==> search != ""
    ensures Listing.ParseListQuery(Lookup(params, "page"), Lookup(params, "limit"), Lookup(params, "search"))
         == Listing.ListQuery(if page == 0 then Listing.DefaultPage else page,
                              if limit == 0 then Listing.DefaultLimit else limit,
                              search)
  {
    params := [];
    params := params + [("page", IntString(page))];
    params := params + [("limit", IntString(limit))];
    if search != "" {
      params := params + [("search", search)];
    }
    assert params[0] == ("page", IntString(page)) && params[1] == ("limit", IntString(limit));
    assert Lookup(params, "page") == Some(IntString(page));
    assert Lookup(params, "limit") == Some(IntString(limit));
    assert Lookup(params, "search") == if search != "" then Some(search) else None by {
      if search != "" {
        assert params[2] == ("search", search);
      }
    }
    ParseIntString(page);
    ParseIntString(limit);
  }

  /** Setting a token and reading it back gives it, whatever storage held. */
  method SetThenGet(items: map<string, string>, t: string) returns (read: Option<string>)
    ensures read == Some(t)
  {
    var storage := new LocalStorage(items);
    var api := new ApiService(storage);
    api.SetToken(t);
    read := api.GetToken();
  }

  /** After clearing, reading the token gives `null`, even though the
      memory copy had been filled from storage before. */
  method ClearThenGet(items: map<string, string>) returns (before: Option<string>, after: Option<string>)
    ensures before == (if AuthTokenKey in items then Some(items[AuthTokenKey]) else None)
    ensures after == None
  {
    var storage := new LocalStorage(items);
    var api := new ApiService(storage);
    before := api.GetToken();
    api.ClearToken();
    after := api.GetToken();
  }
}

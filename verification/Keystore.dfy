/** The store of storage keys and salts: its key names and its get-or-create operation. */
module Keystore {
  import opened Results

  const STORAGE: string := "storage" // StorageKeyName
  const KEY_SIZE := 32               // StorageKeySize
  const SALT_SIZE := 16              // StorageSaltSize
  const IN_MEMORY: string := ":memory:"

  datatype KeyError = ErrNotFound | ErrCryptoKeyGeneration

  /** One request per getter; the getters with a fixed salt name are the last two at that name. */
  datatype Request =
    | MasterKey
    | AccountKey(id: string)
    | GlobalSalt(salt: string)
    | AccountSalt(id: string, salt: string)
  {
    function Name(): string {
      match this
      case MasterKey => STORAGE
      case AccountKey(id) => STORAGE + "/" + id
      case GlobalSalt(salt) => STORAGE + "/global/salt/" + salt
      case AccountSalt(id, salt) => STORAGE + "/" + id + "/salt/" + salt
    }

    function Size(): nat { if MasterKey? || AccountKey? then KEY_SIZE else SALT_SIZE }

    predicate Within(ids: set<string>) { AccountKey? || AccountSalt? ==> id in ids }
  }

  /** The names and sizes, spelled out. */
  lemma NamesSpelled(id: string, salt: string)
    ensures MasterKey.Name() == "storage" && MasterKey.Size() == 32
    ensures AccountKey(id).Name() == "storage/" + id && AccountKey(id).Size() == 32
    ensures GlobalSalt(salt).Name() == "storage/global/salt/" + salt && GlobalSalt(salt).Size() == 16
    ensures AccountSalt(id, salt).Name() == "storage/" + id + "/salt/" + salt && AccountSalt(id, salt).Size() == 16
  {
    assert STORAGE + "/" == "storage/";
    assert STORAGE + "/global/salt/" == "storage/global/salt/";
  }

  // ---------------------------------------------------------------- key names

  ghost predicate NamesDistinct(ids: set<string>) {
    forall a: Request, b: Request {:trigger a.Name(), b.Name()} ::
      a.Within(ids) && b.Within(ids) && a.Name() == b.Name() ==> a == b
  }

  /** y is x followed by a "salt" path segment. */
  predicate Under(x: string, y: string) { x + "/salt/" <= y + "/" }

  predicate SafeIds(ids: set<string>) {
    "global" !in ids && forall x, y :: x in ids + {"global"} && y in ids ==> !Under(x, y)
  }

  function Salted(x: string, salt: string): string { x + "/salt/" + salt }

  /** Where the shorter path ends, the longer one has a slash. */
  lemma UnderAt(x: string, y: string)
    requires Under(x, y)
    ensures |x| + 5 <= |y| && y[|x|] == '/'
  {
    assert (x + "/salt/")[|x|] == (y + "/")[|x|];
  }

  lemma SlashesOfSalt(d: nat)
    requires d < 6 && "/salt/"[d] == '/'
    ensures d == 0 || d == 5
  {
  }

  lemma ShorterIsPrefix(x: string, n: string, y: string, m: string)
    requires Salted(x, n) == Salted(y, m) && |x| < |y|
    ensures Under(x, y)
  {
    var s := Salted(x, n);
    assert s == x + ("/salt/" + n) && s == y + ("/salt/" + m);
    assert x + "/salt/" == s[..|x| + 6];
    assert y + "/" == s[..|y| + 1];
    if |y| - |x| < 6 {
      assert s[|y|] == (x + "/salt/")[|y|];
      assert s[|y|] == (y + "/")[|y|];
      SlashesOfSalt(|y| - |x|);
    }
  }

  lemma SameSalted(x: string, n: string, y: string, m: string)
    requires Salted(x, n) == Salted(y, m) && !Under(x, y) && !Under(y, x)
    ensures x == y && n == m
  {
    if |x| < |y| {
      ShorterIsPrefix(x, n, y, m);
      assert false;
    } else if |y| < |x| {
      ShorterIsPrefix(y, m, x, n);
      assert false;
    } else {
      var s := Salted(x, n);
      assert s == x + ("/salt/" + n) && s == y + ("/salt/" + m);
      assert x == s[..|x|] && y == s[..|x|];
      assert n == s[|x| + 6..] && m == s[|x| + 6..];
    }
  }

  /** The account id under which a request's name is built, and its salt; the global salts use "global". */
  function Holder(r: Request): string
    requires !r.MasterKey?
  {
    if r.GlobalSalt? then "global" else r.id
  }

  function Tail(r: Request): string
    requires !r.MasterKey?
  {
    if r.AccountKey? then r.id else Salted(Holder(r), r.salt)
  }

  lemma Join4(a: string, b: string, c: string, d: string)
    ensures a + "/" + b + c + d == (a + "/") + (b + c + d)
  {
  }

  lemma NameTail(r: Request)
    ensures if r.MasterKey? then |r.Name()| == 7 else r.Name() == "storage/" + Tail(r)
  {
    assert STORAGE + "/" == "storage/";
    match r
    case MasterKey =>
    case AccountKey(id) =>
    case GlobalSalt(salt) =>
      assert STORAGE + "/global/salt/" == STORAGE + "/" + "global" + "/salt/";
      Join4(STORAGE, "global", "/salt/", salt);
    case AccountSalt(id, salt) => Join4(STORAGE, id, "/salt/", salt);
  }

  lemma SameTail(a: Request, b: Request)
    requires a.Name() == b.Name()
    ensures a.MasterKey? <==> b.MasterKey?
    ensures !a.MasterKey? ==> Tail(a) == Tail(b)
  {
    NameTail(a);
    NameTail(b);
    if !a.MasterKey? && !b.MasterKey? {
      assert Tail(a) == a.Name()[8..] && Tail(b) == b.Name()[8..];
    }
  }

  lemma SaltIsUnder(x: string, salt: string)
    ensures Under(x, Salted(x, salt))
  {
  }

  lemma NothingUnderItself(x: string)
    ensures !Under(x, x) && !Under(x, "global")
  {
    if Under(x, x) { UnderAt(x, x); }
    if Under(x, "global") { UnderAt(x, "global"); }
  }

  lemma SafeNames(ids: set<string>, a: Request, b: Request)
    requires SafeIds(ids) && a.Within(ids) && b.Within(ids) && a.Name() == b.Name()
    ensures a == b
  {
    SameTail(a, b);
    if !a.MasterKey? {
      var x, y := Holder(a), Holder(b);
      assert x in ids + {"global"} && y in ids + {"global"};
      NothingUnderItself(x);
      NothingUnderItself(y);
      if a.AccountKey? && !b.AccountKey? {
        SaltIsUnder(y, b.salt);
      } else if b.AccountKey? && !a.AccountKey? {
        SaltIsUnder(x, a.salt);
      } else if !a.AccountKey? {
        SameSalted(x, a.salt, y, b.salt);
      }
    }
  }

  lemma SharedPath(x: string, y: string) returns (rest: string)
    requires Under(x, y)
    ensures Salted(y, "") == Salted(x, rest)
  {
    var between := (y + "/")[|x| + 6..];
    rest := between + "salt/";
    assert y + "/" == x + "/salt/" + between;
    assert Salted(y, "") == (y + "/") + "salt/";
    assert Salted(x, rest) == (x + "/salt/" + between) + "salt/";
  }

  /** An id that lies under another one's salts has a salt name in common with it. */
  lemma UnderCollides(x: string, y: string, ids: set<string>)
    requires Under(x, y) && y in ids && (x == "global" || x in ids)
    ensures !NamesDistinct(ids)
  {
    var rest := SharedPath(x, y);
    var a := AccountSalt(y, "");
    var b := if x in ids then AccountSalt(x, rest) else GlobalSalt(rest);
    NameTail(a);
    NameTail(b);
    NothingUnderItself(x);
    assert a.Within(ids) && b.Within(ids) && a.Name() == b.Name() && a != b;
  }

  /** No two requests share a key name exactly when no account is called "global" or lies under another's salts. */
  lemma DistinctExactlyWhenSafe(ids: set<string>)
    ensures NamesDistinct(ids) <==> SafeIds(ids)
  {
    if SafeIds(ids) {
      forall a: Request, b: Request | a.Within(ids) && b.Within(ids) && a.Name() == b.Name() ensures a == b {
        SafeNames(ids, a, b);
      }
    } else if "global" in ids {
      var a, b := AccountSalt("global", ""), GlobalSalt("");
      NameTail(a);
      NameTail(b);
      assert a.Name() == b.Name();
    } else {
      var x, y :| x in ids + {"global"} && y in ids && Under(x, y);
      UnderCollides(x, y, ids);
    }
  }

  /** Ids without a slash are safe when none is "global"; the empty id is no exception. */
  lemma SlashFreeIsSafe(ids: set<string>)
    requires forall id :: id in ids ==> '/' !in id
    ensures SafeIds(ids) <==> "global" !in ids
  {
    forall x, y | y in ids && Under(x, y) ensures '/' in y {
      UnderAt(x, y);
    }
  }

  // ---------------------------------------------------------------- the store

  type Bytes = seq<bv8>

  /** What the random source gives: the bytes that fill the buffer, or a failure. */
  type Draw = Option<Bytes>

  class MemNativeKeystore {
    var dict: map<string, Bytes>

    constructor ()
      ensures dict == map[]
    {
      dict := map[];
    }

    method Get(key: string) returns (r: Result<Bytes, KeyError>)
      ensures r == if key in dict then Ok(dict[key]) else Err(ErrNotFound)
    {
      if key !in dict { return Err(ErrNotFound); }
      return Ok(dict[key]);
    }

    method Put(key: string, value: Bytes)
      modifies this`dict
      ensures dict == old(dict)[key := value]
    {
      dict := dict[key := value];
    }
  }

  method GetOrCreateKeystoreKey(ks: MemNativeKeystore, name: string, size: nat, draw: Draw)
    returns (r: Result<Bytes, KeyError>)
    requires draw.Some? ==> |draw.value| == size
    modifies ks`dict
    ensures ks.dict == Stored(old(ks.dict), name, draw)
    ensures r == Reply(ks.dict, name)
    ensures r.Err? <==> name !in old(ks.dict) && draw.None?
  {
    var key := ks.Get(name);
    if key.Err? {
      if draw.None? { return Err(ErrCryptoKeyGeneration); }
      ks.Put(name, draw.value);
      key := ks.Get(name);
    }
    return key;
  }

  function Stored(dict: map<string, Bytes>, name: string, draw: Draw): map<string, Bytes> {
    if name in dict || draw.None? then dict else dict[name := draw.value]
  }

  /** What a call answers, read off the store it leaves. */
  function Reply(dict: map<string, Bytes>, name: string): Result<Bytes, KeyError> {
    if name in dict then Ok(dict[name]) else Err(ErrCryptoKeyGeneration)
  }

  // ---------------------------------------------------------------- runs

  datatype Ask = Ask(request: Request, draw: Draw) {
    predicate Fits(ids: set<string>) {
      request.Within(ids) && (draw.Some? ==> |draw.value| == request.Size())
    }
  }

  predicate Asks(asks: seq<Ask>, ids: set<string>) {
    forall i :: 0 <= i < |asks| ==> asks[i].Fits(ids)
  }

  function StoreAfter(asks: seq<Ask>): map<string, Bytes> {
    if asks == [] then map[]
    else
      var last := asks[|asks| - 1];
      Stored(StoreAfter(asks[..|asks| - 1]), last.request.Name(), last.draw)
  }

  function ReplyAt(asks: seq<Ask>, i: nat): Result<Bytes, KeyError>
    requires i < |asks|
  {
    Reply(StoreAfter(asks[..i + 1]), asks[i].request.Name())
  }

  /** The bytes first drawn for this very request. */
  function FirstDraw(asks: seq<Ask>, r: Request): (d: Draw) {
    if asks == [] then None
    else if asks[0].request == r && asks[0].draw.Some? then asks[0].draw
    else FirstDraw(asks[1..], r)
  }

  lemma {:induction false} FirstDrawSnoc(asks: seq<Ask>, ask: Ask, r: Request)
    ensures FirstDraw(asks + [ask], r) ==
            if FirstDraw(asks, r).None? && ask.request == r then ask.draw else FirstDraw(asks, r)
  {
    if asks == [] {
      assert asks + [ask] == [ask];
    } else {
      assert (asks + [ask])[1..] == asks[1..] + [ask];
      FirstDrawSnoc(asks[1..], ask, r);
    }
  }

  /** Under each request's name lies what was first drawn for it, whatever else was asked. */
  lemma {:induction false} StoreHoldsFirstDraws(asks: seq<Ask>, ids: set<string>, r: Request)
    requires SafeIds(ids) && Asks(asks, ids) && r.Within(ids)
    ensures var name, first := r.Name(), FirstDraw(asks, r);
            (name in StoreAfter(asks) <==> first.Some?) && (first.Some? ==> StoreAfter(asks)[name] == first.value)
  {
    if asks != [] {
      var init, last := asks[..|asks| - 1], asks[|asks| - 1];
      StoreHoldsFirstDraws(init, ids, r);
      FirstDrawSnoc(init, last, r);
      assert asks == init + [last];
      if last.request.Name() == r.Name() {
        SafeNames(ids, last.request, r);
      }
    }
  }

  lemma {:induction false} FirstDrawFits(asks: seq<Ask>, ids: set<string>, r: Request)
    requires Asks(asks, ids) && FirstDraw(asks, r).Some?
    ensures |FirstDraw(asks, r).value| == r.Size()
  {
    if asks[0].request != r || asks[0].draw.None? {
      assert Asks(asks[1..], ids) by {
        forall i | 0 <= i < |asks[1..]| ensures asks[1..][i].Fits(ids) { assert asks[1..][i] == asks[i + 1]; }
      }
      FirstDrawFits(asks[1..], ids, r);
    }
  }

  lemma {:induction false} FirstDrawStays(asks: seq<Ask>, more: seq<Ask>, r: Request)
    requires FirstDraw(asks, r).Some?
    ensures FirstDraw(asks + more, r) == FirstDraw(asks, r)
  {
    assert (asks + more)[0] == asks[0];
    if asks[0].request != r || asks[0].draw.None? {
      assert (asks + more)[1..] == asks[1..] + more;
      FirstDrawStays(asks[1..], more, r);
    }
  }

  /**
    From an empty store, in any order of requests, each call answers as if its request had a store
    of its own: with the bytes first drawn for that request, all 32 or 16 of them.
  */
  lemma EachRequestHasItsOwnBytes(asks: seq<Ask>, ids: set<string>, i: nat)
    requires SafeIds(ids) && Asks(asks, ids) && i < |asks|
    ensures var first := FirstDraw(asks[..i + 1], asks[i].request);
            ReplyAt(asks, i) == if first.Some? then Ok(first.value) else Err(ErrCryptoKeyGeneration)
    ensures ReplyAt(asks, i).Ok? ==> |ReplyAt(asks, i).value| == asks[i].request.Size()
  {
    StoreHoldsFirstDraws(asks[..i + 1], ids, asks[i].request);
    if FirstDraw(asks[..i + 1], asks[i].request).Some? {
      FirstDrawFits(asks[..i + 1], ids, asks[i].request);
    }
  }

  /** Once a request was answered, repeating it gives the same bytes and cannot fail. */
  lemma SameBytesAgain(asks: seq<Ask>, ids: set<string>, i: nat, j: nat)
    requires SafeIds(ids) && Asks(asks, ids) && i <= j < |asks|
    requires asks[i].request == asks[j].request && ReplyAt(asks, i).Ok?
    ensures ReplyAt(asks, j) == ReplyAt(asks, i)
  {
    EachRequestHasItsOwnBytes(asks, ids, i);
    EachRequestHasItsOwnBytes(asks, ids, j);
    FirstDrawStays(asks[..i + 1], asks[i + 1..j + 1], asks[i].request);
    assert asks[..i + 1] + asks[i + 1..j + 1] == asks[..j + 1];
  }

  /** The length checks made before a database file is opened. */
  method LengthsAccepted(dbPath: string, key: Bytes, salt: Bytes) returns (ok: bool)
    ensures ok <==> Accepts(dbPath, key, salt)
  {
    if dbPath == IN_MEMORY { return true; }
    if |key| != 0 {
      if |key| != 32 { return false; }
      if |salt| != 16 { return false; }
    }
    return true;
  }

  predicate Accepts(dbPath: string, key: Bytes, salt: Bytes) {
    dbPath != IN_MEMORY && key != [] ==> |key| == 32 && |salt| == 16
  }

  /** A key and a salt obtained in one run always pass the length checks, for every path. */
  lemma OpenerAccepts(asks: seq<Ask>, ids: set<string>, i: nat, j: nat, dbPath: string)
    requires SafeIds(ids) && Asks(asks, ids) && i < |asks| && j < |asks|
    requires asks[i].request.MasterKey? || asks[i].request.AccountKey?
    requires asks[j].request.GlobalSalt? || asks[j].request.AccountSalt?
    requires ReplyAt(asks, i).Ok? && ReplyAt(asks, j).Ok?
    ensures Accepts(dbPath, ReplyAt(asks, i).value, ReplyAt(asks, j).value)
  {
    EachRequestHasItsOwnBytes(asks, ids, i);
    EachRequestHasItsOwnBytes(asks, ids, j);
  }

  /** An id with a slash in it can make a getter for a 16-byte salt return a 32-byte key, which the opener refuses. */
  lemma SlashedIdMixesSizes(draw: Bytes, dbPath: string)
    requires |draw| == 32 && dbPath != IN_MEMORY
    ensures var asks := [Ask(AccountKey("a/salt/app-storage"), Some(draw)), Ask(AccountSalt("a", "app-storage"), None)];
            Asks(asks, {"a", "a/salt/app-storage"})
            && ReplyAt(asks, 0) == Ok(draw) && ReplyAt(asks, 1) == Ok(draw)
            && !Accepts(dbPath, draw, ReplyAt(asks, 1).value)
  {
    var asks := [Ask(AccountKey("a/salt/app-storage"), Some(draw)), Ask(AccountSalt("a", "app-storage"), None)];
    NameTail(asks[0].request);
    NameTail(asks[1].request);
    assert Tail(asks[0].request) == Tail(asks[1].request);
    assert asks[..1] == [asks[0]] && asks[..2] == asks && asks[0..0] == [];
    assert StoreAfter(asks[..1]) == map[asks[0].request.Name() := draw];
    assert StoreAfter(asks[..2]) == StoreAfter(asks[..1]);
  }
}

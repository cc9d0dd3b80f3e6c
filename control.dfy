/**
  The HTTP binding of the camera (control.py): the query-string join `dict2url`
  and the argument map that `FoscamControl.control` builds before its request.
 */
module Control {
  import opened Common
  import opened PyDict

  /** `'='.join((key, value))` */
  function Pair(kv: (string, string)): string
  {
    kv.0 + "=" + kv.1
  }

  /** The list comprehension `['='.join(i) for i in d.items()]`. */
  function Pairs(d: Dict<string, string>): (ps: seq<string>)
    ensures |ps| == |d|
  {
    if d == [] then [] else [Pair(d[0])] + Pairs(d[1..])
  }

  /** `sep.join(parts)` for a one-character separator. */
  function Join(sep: char, parts: seq<string>): string
  {
    if |parts| == 0 then ""
    else if |parts| == 1 then parts[0]
    else parts[0] + [sep] + Join(sep, parts[1..])
  }

  /** `dict2url(d)`: the `'&'`-join of `key=value` over d's entries, without escaping. */
  function Dict2Url(d: Dict<string, string>): (url: string)
    ensures url == "" <==> d == []
  {
    Join('&', Pairs(d))
  }

  /** `s.split(sep)` for a one-character separator. */
  function Split(s: string, sep: char): (parts: seq<string>)
    ensures |parts| >= 1
  {
    if s == [] then [""]
    else
      var rest := Split(s[1..], sep);
      if s[0] == sep then [""] + rest else [[s[0]] + rest[0]] + rest[1..]
  }

  /** `s.partition(sep)` without the separator: what precedes its first occurrence, and what follows. */
  function SplitAtFirst(s: string, sep: char): (string, string)
  {
    if s == [] then ("", "")
    else if s[0] == sep then ("", s[1..])
    else
      var (before, after) := SplitAtFirst(s[1..], sep);
      ([s[0]] + before, after)
  }

  /** Reads a query string back into its entries: the inverse that the round trip is stated against. */
  function Url2Dict(url: string): Dict<string, string>
  {
    if url == "" then []
    else
      var parts := Split(url, '&');
      seq(|parts|, i requires 0 <= i < |parts| => SplitAtFirst(parts[i], '='))
  }

  function Count(s: string, c: char): nat
  {
    if s == [] then 0 else (if s[0] == c then 1 else 0) + Count(s[1..], c)
  }

  /** The sum of `len(key) + len(value) + 1` over the entries. */
  function EntriesLength(d: Dict<string, string>): nat
  {
    if d == [] then 0 else |d[0].0| + |d[0].1| + 1 + EntriesLength(d[1..])
  }

  predicate Free(d: Dict<string, string>, c: char)
  {
    forall i :: 0 <= i < |d| ==> c !in d[i].0 && c !in d[i].1
  }

  predicate FreeKeys(d: Dict<string, string>, c: char)
  {
    forall i :: 0 <= i < |d| ==> c !in d[i].0
  }

  lemma {:induction false} CountAppend(a: string, b: string, c: char)
    ensures Count(a + b, c) == Count(a, c) + Count(b, c)
  {
    if a == [] {
      assert a + b == b;
    } else {
      assert (a + b)[0] == a[0] && (a + b)[1..] == a[1..] + b;
      CountAppend(a[1..], b, c);
    }
  }

  lemma {:induction false} CountAbsent(s: string, c: char)
    requires c !in s
    ensures Count(s, c) == 0
  {
    if s != [] {
      CountAbsent(s[1..], c);
    }
  }

  /** Splitting a string with no separator in it gives the string itself. */
  lemma {:induction false} SplitAbsent(s: string, sep: char)
    requires sep !in s
    ensures Split(s, sep) == [s]
  {
    if s != [] {
      SplitAbsent(s[1..], sep);
      assert [s[0]] + s[1..] == s;
    }
  }

  /** Splitting stops at the first separator. */
  lemma {:induction false} SplitAtSeparator(a: string, b: string, sep: char)
    requires sep !in a
    ensures Split(a + [sep] + b, sep) == [a] + Split(b, sep)
  {
    if a == [] {
      assert a + [sep] + b == [sep] + b;
    } else {
      var s := a + [sep] + b;
      assert s[0] == a[0] && s[1..] == a[1..] + [sep] + b;
      SplitAtSeparator(a[1..], b, sep);
      assert [a[0]] + a[1..] == a;
    }
  }

  /** Splitting a join on its separator gives back the parts when no part holds the separator. */
  lemma {:induction false} SplitJoin(parts: seq<string>, sep: char)
    requires |parts| >= 1
    requires forall i :: 0 <= i < |parts| ==> sep !in parts[i]
    ensures Split(Join(sep, parts), sep) == parts
  {
    if |parts| == 1 {
      SplitAbsent(parts[0], sep);
    } else {
      SplitAtSeparator(parts[0], Join(sep, parts[1..]), sep);
      SplitJoin(parts[1..], sep);
    }
  }

  /** A join of n parts free of the separator holds exactly n - 1 separators. */
  lemma {:induction false} JoinCount(parts: seq<string>, sep: char)
    requires |parts| >= 1
    requires forall i :: 0 <= i < |parts| ==> sep !in parts[i]
    ensures Count(Join(sep, parts), sep) == |parts| - 1
  {
    CountAbsent(parts[0], sep);
    if |parts| > 1 {
      CountAppend(parts[0] + [sep], Join(sep, parts[1..]), sep);
      CountAppend(parts[0], [sep], sep);
      JoinCount(parts[1..], sep);
    }
  }

  lemma PairsFree(d: Dict<string, string>, c: char)
    requires Free(d, c) && c != '='
    ensures forall i :: 0 <= i < |Pairs(d)| ==> c !in Pairs(d)[i]
  {
  }

  lemma {:induction false} PairsAt(d: Dict<string, string>, i: nat)
    requires i < |d|
    ensures Pairs(d)[i] == Pair(d[i])
  {
    if i > 0 {
      PairsAt(d[1..], i - 1);
    }
  }

  /** `dict2url({})` is the empty string. */
  lemma Dict2UrlEmpty()
    ensures Dict2Url([]) == ""
  {
  }

  /**
    With no `'&'` inside keys or values, the url of n >= 1 entries holds exactly
    n - 1 `'&'` and splits on `'&'` into the n `key=value` segments, in order.
   */
  lemma Dict2UrlSegments(d: Dict<string, string>)
    requires |d| >= 1 && Free(d, '&')
    ensures Count(Dict2Url(d), '&') == |d| - 1
    ensures Split(Dict2Url(d), '&') == Pairs(d)
    ensures forall i :: 0 <= i < |d| ==> Split(Dict2Url(d), '&')[i] == d[i].0 + "=" + d[i].1
  {
    PairsFree(d, '&');
    JoinCount(Pairs(d), '&');
    SplitJoin(Pairs(d), '&');
    forall i | 0 <= i < |d|
      ensures Pairs(d)[i] == d[i].0 + "=" + d[i].1
    {
      PairsAt(d, i);
    }
  }

  /** A segment splits at its first `'='` back into its key and value when the key has no `'='`. */
  lemma {:induction false} PairRoundTrip(kv: (string, string))
    requires '=' !in kv.0
    ensures SplitAtFirst(Pair(kv), '=') == kv
    decreases |kv.0|
  {
    if kv.0 == [] {
      assert Pair(kv) == "=" + kv.1;
    } else {
      assert Pair(kv)[0] == kv.0[0] && Pair(kv)[1..] == Pair((kv.0[1..], kv.1));
      PairRoundTrip((kv.0[1..], kv.1));
      assert [kv.0[0]] + kv.0[1..] == kv.0;
    }
  }

  /** `dict2url` loses nothing when no key holds `'&'` or `'='` and no value holds `'&'`. */
  lemma Dict2UrlRoundTrip(d: Dict<string, string>)
    requires Free(d, '&') && FreeKeys(d, '=')
    ensures Url2Dict(Dict2Url(d)) == d
  {
    if d != [] {
      Dict2UrlSegments(d);
      var parts := Split(Dict2Url(d), '&');
      forall i | 0 <= i < |d|
        ensures SplitAtFirst(parts[i], '=') == d[i]
      {
        PairsAt(d, i);
        PairRoundTrip(d[i]);
      }
    }
  }

  /** The url is as long as its entries, one `'='` each, and the n - 1 `'&'` between them. */
  lemma {:induction false} Dict2UrlLength(d: Dict<string, string>)
    requires |d| >= 1
    ensures |Dict2Url(d)| == EntriesLength(d) + |d| - 1
  {
    if |d| > 1 {
      Dict2UrlLength(d[1..]);
      assert Pairs(d)[1..] == Pairs(d[1..]);
    }
  }

  function Digit(n: nat): (c: char)
    requires n < 10
    ensures '0' <= c <= '9'
  {
    "0123456789"[n]
  }

  function NatString(n: nat): (s: string)
    ensures |s| >= 1
    ensures forall i :: 0 <= i < |s| ==> '0' <= s[i] <= '9'
  {
    if n < 10 then [Digit(n)] else NatString(n / 10) + [Digit(n % 10)]
  }

  /** `str(n)` for an integer: its decimal digits, after a `'-'` when negative. */
  function IntString(n: int): (s: string)
    ensures |s| >= 1
    ensures forall i :: 0 <= i < |s| ==> (i == 0 && s[i] == '-') || '0' <= s[i] <= '9'
    ensures s[0] == '-' <==> n < 0
  {
    if n < 0 then "-" + NatString(-n) else NatString(n)
  }

  /** The value of a decimal digit. */
  function DigitValue(c: char): (d: nat)
    requires '0' <= c <= '9'
    ensures d < 10
  {
    (c as int) - ('0' as int)
  }

  /** The number a string of decimal digits denotes, read most significant digit first. */
  function Val(s: string): nat
    requires forall i :: 0 <= i < |s| ==> '0' <= s[i] <= '9'
  {
    if s == [] then 0 else 10 * Val(s[..|s| - 1]) + DigitValue(s[|s| - 1])
  }

  /** The integer a decimal numeral denotes, as `int()` reads it. */
  function IntVal(s: string): int
    requires |s| >= 1 && forall i :: 0 <= i < |s| ==> (i == 0 && s[i] == '-') || '0' <= s[i] <= '9'
  {
    if s[0] == '-' then 0 - Val(s[1..]) as int else Val(s)
  }

  lemma DigitRoundTrip(d: nat)
    requires d < 10
    ensures DigitValue(Digit(d)) == d
  {
  }

  /** `str(n)` of a natural number denotes n and has no leading zero. */
  lemma {:induction false} NatStringValue(n: nat)
    ensures Val(NatString(n)) == n
    ensures NatString(n)[0] == '0' <==> n == 0
  {
    var s := NatString(n);
    if n < 10 {
      DigitRoundTrip(n);
      assert s[..0] == [];
    } else {
      NatStringValue(n / 10);
      DigitRoundTrip(n % 10);
      assert s[..|s| - 1] == NatString(n / 10);
      assert s[0] == NatString(n / 10)[0];
    }
  }

  /** A minus sign followed by the digits of a positive number denotes its negation. */
  lemma {:induction false} NegatedValue(d: string)
    requires |d| >= 1 && forall i :: 0 <= i < |d| ==> '0' <= d[i] <= '9'
    ensures IntVal("-" + d) == 0 - Val(d) as int
  {
    assert ("-" + d)[1..] == d;
  }

  /** `str(n)` denotes n, and its digits have no leading zero. */
  lemma IntStringValue(n: int)
    ensures IntVal(IntString(n)) == n
    ensures var s := IntString(n);
            s[0] != '0' || s == "0"
    ensures var s := IntString(n);
            s[0] == '-' ==> |s| >= 2 && s[1] != '0'
  {
    if n < 0 {
      var m: nat := -n;
      var d := NatString(m);
      NatStringValue(m);
      assert m != 0;
      assert d[0] != '0';
      NegatedValue(d);
      assert IntString(n) == "-" + d;
      assert IntString(n)[1] == d[0];
    } else {
      NatStringValue(n);
      assert IntString(n) == NatString(n) && IntString(n)[0] != '-';
    }
  }

  /** The argument map of `control` before the credentials are merged in (control.py, lines 25-27). */
  function BaseArgs(command: int, onestep: bool, degree: Option<int>): (args: Dict<string, string>)
    ensures Lookup(args, "command") == Some(IntString(command))
    ensures |args| == 1 + (if onestep then 1 else 0) + (if degree.Some? then 1 else 0)
  {
    [("command", IntString(command))]
    + (if onestep then [("onestep", "1")] else [])
    + (if degree.Some? then [("degree", IntString(degree.value))] else [])
  }

  lemma BaseArgsKeys(command: int, onestep: bool, degree: Option<int>)
    ensures Keys(BaseArgs(command, onestep, degree))
         == ["command"] + (if onestep then ["onestep"] else []) + (if degree.Some? then ["degree"] else [])
  {
    var first := [("command", IntString(command))] + (if onestep then [("onestep", "1")] else []);
    KeysConcat([("command", IntString(command))], if onestep then [("onestep", "1")] else []);
    KeysConcat(first, if degree.Some? then [("degree", IntString(degree.value))] else []);
  }

  lemma BaseArgsLookup(command: int, onestep: bool, degree: Option<int>, k: string)
    ensures Lookup(BaseArgs(command, onestep, degree), k)
         == if k == "command" then Some(IntString(command))
            else if k == "onestep" && onestep then Some("1")
            else if k == "degree" && degree.Some? then Some(IntString(degree.value))
            else None
  {
    var a: Dict<string, string> := [("command", IntString(command))];
    var b: Dict<string, string> := if onestep then [("onestep", "1")] else [];
    var c: Dict<string, string> := if degree.Some? then [("degree", IntString(degree.value))] else [];
    LookupConcat(a, b, k);
    LookupConcat(a + b, c, k);
  }

  /** The keys before the merge are distinct and are not the credentials' keys. */
  lemma BaseArgsFresh(command: int, onestep: bool, degree: Option<int>)
    ensures var base := BaseArgs(command, onestep, degree);
            UniqueKeys(base) && "user" !in Keys(base) && "pwd" !in Keys(base)
  {
    BaseArgsKeys(command, onestep, degree);
    assert "command"[0] == 'c' && "onestep"[0] == 'o' && "degree"[0] == 'd';
    assert "user"[0] == 'u' && "pwd"[0] == 'p';
  }

  /** Merging `{'user': …, 'pwd': …}` into a dict without those keys appends them. */
  lemma WithAuth(base: Dict<string, string>, auth: Dict<string, string>)
    requires |auth| == 2 && auth[0].0 == "user" && auth[1].0 == "pwd"
    requires UniqueKeys(base) && "user" !in Keys(base) && "pwd" !in Keys(base)
    ensures Update(base, auth) == base + auth
    ensures Keys(base + auth) == Keys(base) + ["user", "pwd"]
    ensures UniqueKeys(base + auth)
  {
    assert "user" != "pwd" by {
      assert "user"[0] != "pwd"[0];
    }
    UpdateAbsentPair(base, auth);
  }

  lemma AuthLookup(auth: Dict<string, string>, k: string)
    requires |auth| == 2 && auth[0].0 == "user" && auth[1].0 == "pwd"
    ensures Lookup(auth, k) == if k == "user" then Some(auth[0].1) else if k == "pwd" then Some(auth[1].1) else None
  {
    assert auth[1..][0] == auth[1] && auth[1..][1..] == [];
    assert Lookup(auth, k) == if k == "user" then Some(auth[0].1) else Lookup(auth[1..], k);
    assert Lookup(auth[1..], k) == if k == "pwd" then Some(auth[1].1) else Lookup(auth[1..][1..], k);
  }

  /** What `control` sends, as stated by its contract, holds of the map built from its arguments. */
  lemma ArgsFacts(command: int, onestep: bool, degree: Option<int>, auth: Dict<string, string>)
    requires |auth| == 2 && auth[0].0 == "user" && auth[1].0 == "pwd"
    ensures var args := Update(BaseArgs(command, onestep, degree), auth);
            && UniqueKeys(args)
            && Keys(args) == ["command"] + (if onestep then ["onestep"] else [])
                             + (if degree.Some? then ["degree"] else []) + ["user", "pwd"]
            && forall k :: Lookup(args, k)
                        == if k == "user" then Some(auth[0].1) else if k == "pwd" then Some(auth[1].1)
                           else Lookup(BaseArgs(command, onestep, degree), k)
  {
    var base := BaseArgs(command, onestep, degree);
    BaseArgsFresh(command, onestep, degree);
    BaseArgsKeys(command, onestep, degree);
    WithAuth(base, auth);
    forall k
      ensures Lookup(base + auth, k)
           == if k == "user" then Some(auth[0].1) else if k == "pwd" then Some(auth[1].1)
              else Lookup(base, k)
    {
      LookupConcat(base, auth, k);
      LookupFindsKeys(base, k);
      AuthLookup(auth, k);
    }
  }

  /** The value `control` sends under each key. */
  lemma ArgsLookup(command: int, onestep: bool, degree: Option<int>, auth: Dict<string, string>, k: string)
    requires |auth| == 2 && auth[0].0 == "user" && auth[1].0 == "pwd"
    ensures Lookup(Update(BaseArgs(command, onestep, degree), auth), k)
         == if k == "user" then Some(auth[0].1) else if k == "pwd" then Some(auth[1].1)
            else if k == "command" then Some(IntString(command))
            else if k == "onestep" && onestep then Some("1")
            else if k == "degree" && degree.Some? then Some(IntString(degree.value))
            else None
  {
    ArgsFacts(command, onestep, degree, auth);
    BaseArgsLookup(command, onestep, degree, k);
  }

  class FoscamControl {
    const url: string
    const auth: Dict<string, string>

    /** `self.auth` is `{'user': user, 'pwd': password}`. */
    predicate Valid()
    {
      |auth| == 2 && auth[0].0 == "user" && auth[1].0 == "pwd"
    }

    constructor (url: string, user: string, password: string)
      ensures Valid()
      ensures this.url == url && auth == [("user", user), ("pwd", password)]
    {
      this.url := url;
      this.auth := [("user", user), ("pwd", password)];
    }

    /**
      The argument map `control(command, onestep, degree)` sends (the request itself
      is not modelled): `command`, then `onestep` when it is truthy, then `degree`
      when it is given, then the credentials.
     */
    method ControlArgs(command: int, onestep: bool, degree: Option<int>) returns (args: Dict<string, string>)
      requires Valid()
      ensures UniqueKeys(args)
      ensures Lookup(args, "command") == Some(IntString(command))
      ensures Lookup(args, "onestep") == if onestep then Some("1") else None
      ensures Lookup(args, "degree") == if degree.Some? then Some(IntString(degree.value)) else None
      ensures Lookup(args, "user") == Some(auth[0].1) && Lookup(args, "pwd") == Some(auth[1].1)
      ensures forall k :: k !in ["command", "onestep", "degree", "user", "pwd"] ==> Lookup(args, k) == None
      ensures Keys(args) == ["command"] + (if onestep then ["onestep"] else [])
                            + (if degree.Some? then ["degree"] else []) + ["user", "pwd"]
    {
      args := [("command", IntString(command))];
      assert Keys(args) == ["command"];
      if onestep {
        PutAbsent(args, "onestep", "1");
        args := Put(args, "onestep", "1");
      }
      if degree.Some? {
        var value := IntString(degree.value);
        KeysConcat([("command", IntString(command))], if onestep then [("onestep", "1")] else []);
        PutAbsent(args, "degree", value);
        args := Put(args, "degree", value);
      }
      assert args == BaseArgs(command, onestep, degree);
      ArgsFacts(command, onestep, degree, auth);
      ArgsLookup(command, onestep, degree, auth, "command");
      ArgsLookup(command, onestep, degree, auth, "onestep");
      ArgsLookup(command, onestep, degree, auth, "degree");
      ArgsLookup(command, onestep, degree, auth, "user");
      ArgsLookup(command, onestep, degree, auth, "pwd");
      forall k | k !in ["command", "onestep", "degree", "user", "pwd"]
        ensures Lookup(Update(args, auth), k) == None
      {
        ArgsLookup(command, onestep, degree, auth, k);
      }
      args := Update(args, auth);
    }
  }
}

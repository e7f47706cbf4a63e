/** Path names: splitting into components, counting them, and walking along them. */
module PathWalk {
  type Name = seq<char>

  // ---------- the splitting specification ----------

  /** The length of the run without slashes at the start. */
  function Run(s: Name): (n: nat)
    ensures n <= |s| && (forall i :: 0 <= i < n ==> s[i] != '/') && (n < |s| ==> s[n] == '/')
  {
    if s == [] || s[0] == '/' then 0 else 1 + Run(s[1..])
  }

  /** The components of a path: its longest runs without slashes, in order. */
  function Components(s: Name): seq<Name> {
    if s == [] then []
    else if s[0] == '/' then Components(s[1..])
    else [s[..Run(s)]] + Components(s[Run(s)..])
  }

  /** Components are neither empty nor have they slashes. */
  lemma {:induction false} ComponentsProper(s: Name, i: nat)
    requires i < |Components(s)|
    ensures Components(s)[i] != [] && '/' !in Components(s)[i]
    decreases |s|
  {
    if s[0] == '/' {
      ComponentsProper(s[1..], i);
    } else if i > 0 {
      ComponentsProper(s[Run(s)..], i - 1);
    }
  }

  lemma RunUnique(s: Name, n: nat)
    requires n <= |s| && (forall i :: 0 <= i < n ==> s[i] != '/') && (n < |s| ==> s[n] == '/')
    ensures Run(s) == n
  {
  }

  /** One character more at the front: it starts a component, or becomes part of the first. */
  lemma FirstChar(c: char, t: Name)
    requires c != '/'
    ensures var s := [c] + t;
      if t == [] || t[0] == '/' then Components(s) == [[c]] + Components(t)
      else Components(t) != [] && Components(s) == [[c] + Components(t)[0]] + Components(t)[1..]
  {
    var s := [c] + t;
    assert s[1..] == t;
    if t == [] || t[0] == '/' {
      RunUnique(s, 1);
      assert s[..1] == [c];
    } else {
      RunUnique(s, 1 + Run(t));
      assert s[..1 + Run(t)] == [c] + t[..Run(t)];
      assert s[1 + Run(t)..] == t[Run(t)..];
    }
  }

  /** Slashes at the front do not matter. */
  lemma {:induction false} Leading(s: Name, n: nat)
    requires n <= |s| && forall i :: 0 <= i < n ==> s[i] == '/'
    ensures Components(s) == Components(s[n..])
  {
    if n > 0 {
      Leading(s[1..], n - 1);
      assert s[1..][n - 1..] == s[n..];
    } else {
      assert s[0..] == s;
    }
  }

  /** A slash at the end does not matter. */
  lemma {:induction false} Trailing(s: Name)
    ensures Components(s + ['/']) == Components(s)
    decreases |s|
  {
    if s == [] {
      assert s + ['/'] == ['/'] && ['/'][1..] == [];
    } else if s[0] == '/' {
      assert (s + ['/'])[1..] == s[1..] + ['/'];
      Trailing(s[1..]);
    } else {
      var n := Run(s);
      var t := s + ['/'];
      RunUnique(t, n);
      assert t[..n] == s[..n] && t[n..] == s[n..] + ['/'];
      Trailing(s[n..]);
    }
  }

  /** Repeated slashes do not matter. */
  lemma {:induction false} Repeated(a: Name, b: Name)
    ensures Components(a + ['/', '/'] + b) == Components(a + ['/'] + b)
    decreases |a|
  {
    var s, t := a + ['/', '/'] + b, a + ['/'] + b;
    if a == [] {
      assert s[1..] == t;
    } else if a[0] == '/' {
      assert s[1..] == a[1..] + ['/', '/'] + b && t[1..] == a[1..] + ['/'] + b;
      Repeated(a[1..], b);
    } else {
      var n := Run(a);
      RunUnique(s, n);
      RunUnique(t, n);
      assert s[..n] == a[..n] == t[..n];
      assert s[n..] == a[n..] + ['/', '/'] + b && t[n..] == a[n..] + ['/'] + b;
      Repeated(a[n..], b);
    }
  }

  /** The path of some names, each after a slash. */
  function Path(names: seq<Name>): Name {
    if names == [] then [] else ['/'] + (names[0] + Path(names[1..]))
  }

  lemma FirstName(first: Name, rest: Name)
    requires first != [] && '/' !in first && (rest == [] || rest[0] == '/')
    ensures Components(first + rest) == [first] + Components(rest)
  {
    var t := first + rest;
    assert forall i :: 0 <= i < |first| ==> t[i] in first;
    RunUnique(t, |first|);
    assert t[..|first|] == first && t[|first|..] == rest;
  }

  /** Names that are neither empty nor have slashes are the components of their path. */
  lemma {:induction false} PathComponents(names: seq<Name>)
    requires forall i :: 0 <= i < |names| ==> names[i] != [] && '/' !in names[i]
    ensures Components(Path(names)) == names
  {
    if names != [] {
      var first, rest := names[0], Path(names[1..]);
      assert Path(names)[1..] == first + rest;
      FirstName(first, rest);
      PathComponents(names[1..]);
    }
  }

  // ---------- counting ----------

  /** The number of groups of slashes. */
  function Groups(s: Name): nat {
    if s == [] then 0
    else Groups(s[1..]) + if s[0] == '/' && (|s| == 1 || s[1] != '/') then 1 else 0
  }

  lemma {:induction false} GroupsCount(s: Name)
    requires s != []
    ensures Groups(s) - (if s[|s| - 1] == '/' then 1 else 0) == |Components(s)| - (if s[0] == '/' then 0 else 1)
    decreases |s|
  {
    var t := s[1..];
    assert s == [s[0]] + t;
    if t != [] { GroupsCount(t); }
    if s[0] != '/' { FirstChar(s[0], t); }
  }

  /** `namei_num_cnp` of an absolute path; the counter has 8 bits. */
  method NumCnp(path: Name) returns (count: nat)
    requires path != [] && path[0] == '/' && '\0' !in path
    ensures count == |Components(path)| % 256
  {
    var p := 0;
    count := 0;
    ghost var total := 0;
    assert path[0..] == path;
    while p < |path|
      invariant 0 <= p <= |path| && count == total % 256 && total + Groups(path[p..]) == Groups(path)
    {
      assert path[p..][1..] == path[p + 1..];
      Wraps(total);
      if path[p] == '/' && p + 1 < |path| && path[p + 1] == '/' {
        p := p + 1;
        continue;
      }
      if path[p] == '/' {
        count := (count + 1) % 256;
        total := total + 1;
      }
      p := p + 1;
    }
    GroupsCount(path);
    Wraps(total);
    if path[p - 1] == '/' {
      count := (count + 255) % 256;
    }
  }

  lemma Remainder(n: int, q: int, k: int)
    requires n == 256 * q + k && 0 <= k < 256
    ensures n % 256 == k
  {
  }

  /** Counting up and down on 8 bits. */
  lemma Wraps(n: nat)
    ensures (n % 256 + 1) % 256 == (n + 1) % 256 && (n > 0 ==> (n % 256 + 255) % 256 == (n - 1) % 256)
  {
    var q, k := n / 256, n % 256;
    Remainder(k + 1, if k == 255 then 1 else 0, if k == 255 then 0 else k + 1);
    Remainder(n + 1, if k == 255 then q + 1 else q, if k == 255 then 0 else k + 1);
    Remainder(k + 255, if k == 0 then 0 else 1, if k == 0 then 255 else k - 1);
    Remainder(n - 1, if k == 0 then q - 1 else q, if k == 0 then 255 else k - 1);
  }

  // ---------- one component ----------

  datatype Option<T> = None | Some(value: T)

  /** The text the scanner works on. */
  function Text(path: Name): Name {
    path + ['/']
  }

  /** While scanning: the component from `start` is `text[start..e]`, and slashes from `e` to `p` are behind it. */
  ghost predicate Scan(text: Name, start: nat, e: nat, p: nat) {
    && start <= e <= p <= |text|
    && (forall i :: start <= i < e ==> text[i] != '/')
    && (forall i :: e <= i < p ==> text[i] == '/')
    && (start < |text| ==> text[start] != '/')
    && (e < p ==> p < |text| && text[p] == '/')
  }

  lemma FirstRun(text: Name, start: nat, e: nat)
    requires start < e < |text| && (forall i :: start <= i < e ==> text[i] != '/') && text[e] == '/'
    ensures Components(text[start..]) == [text[start..e]] + Components(text[e..])
  {
    var s := text[start..];
    RunUnique(s, e - start);
    assert s[..e - start] == text[start..e] && s[e - start..] == text[e..];
  }

  /** At the last slash of a group a component ends and the rest follows. */
  lemma ScanEnds(text: Name, start: nat, e: nat, p: nat)
    requires Scan(text, start, e, p) && p < |text| && text[p] == '/'
    ensures start < e
    ensures Components(text[start..]) == [text[start..e]] + Components(text[p + 1..])
  {
    FirstRun(text, start, e);
    Leading(text[e..], p + 1 - e);
    assert text[e..][p + 1 - e..] == text[p + 1..];
  }

  /** The buffer is the text, with some slashes replaced by zero bytes, and a zero byte at the end. */
  ghost predicate Snipped(buf: seq<char>, text: Name, p: nat) {
    && |buf| == |text| + 1 && buf[|text|] == '\0' && p <= |text|
    && (forall i :: 0 <= i < |text| && text[i] != '/' ==> buf[i] == text[i])
    && (forall i :: p <= i < |text| ==> buf[i] == text[i])
  }

  /** `strlen` from `i` on. */
  method StrLen(buf: array<char>, i: nat) returns (n: nat)
    requires i < buf.Length && buf[buf.Length - 1] == '\0'
    ensures i + n < buf.Length && buf[i + n] == '\0' && forall j :: i <= j < i + n ==> buf[j] != '\0'
  {
    n := 0;
    while buf[i + n] != '\0'
      invariant i + n < buf.Length && forall j :: i <= j < i + n ==> buf[j] != '\0'
      decreases buf.Length - n
    {
      n := n + 1;
    }
  }

  lemma ScanMore(text: Name, start: nat, e: nat, p: nat)
    requires Scan(text, start, e, p) && p < |text|
    ensures text[p] != '/' ==> e == p && Scan(text, start, p + 1, p + 1)
    ensures text[p] == '/' && p + 1 < |text| && text[p + 1] == '/' ==> Scan(text, start, e, p + 1)
    ensures text[p] == '/' && (p + 1 == |text| || text[p + 1] != '/') ==> Scan(text, p + 1, p + 1, p + 1)
  {
  }

  lemma Snip(buf: seq<char>, text: Name, p: nat)
    requires Snipped(buf, text, p) && p < |text|
    ensures Snipped(buf, text, p + 1) && (text[p] == '/' ==> Snipped(buf[p := '\0'], text, p + 1))
  {
  }

  /** The name ends at the first zero byte. */
  lemma NameRead(buf: seq<char>, text: Name, p: nat, start: nat, e: nat, n: nat)
    requires Snipped(buf, text, p) && start <= e < |text| && buf[e] == '\0' && '\0' !in text
    requires forall i :: start <= i < e ==> text[i] != '/'
    requires start + n < |buf| && buf[start + n] == '\0' && forall i :: start <= i < start + n ==> buf[i] != '\0'
    ensures start + n == e && buf[start..start + n] == text[start..e]
  {
    assert forall i :: start <= i < e ==> buf[i] == text[i] && text[i] in text;
  }

  /** `cs[i]` plays the components from `i` on: the first ends where the scan says, and the others follow. */
  ghost predicate Cut(text: Name, cs: seq<seq<Name>>, start: nat, e: nat, p: nat) {
    |cs| == |text| + 1 && (Scan(text, start, e, p) && p < |text| && text[p] == '/' ==>
                             start < e && cs[start] == [text[start..e]] + cs[p + 1])
  }

  ghost predicate Cuts(text: Name, cs: seq<seq<Name>>) {
    && |cs| == |text| + 1 && cs[|text|] == []
    && forall start: nat, e: nat, p: nat {:trigger Cut(text, cs, start, e, p)} :: Cut(text, cs, start, e, p)
  }

  ghost function Suffixes(text: Name): (cs: seq<seq<Name>>)
    ensures |cs| == |text| + 1 && forall i :: 0 <= i <= |text| ==> cs[i] == Components(text[i..])
  {
    seq(|text| + 1, i requires 0 <= i <= |text| => Components(text[i..]))
  }

  lemma SuffixesCut(text: Name)
    ensures Cuts(text, Suffixes(text))
  {
    var cs := Suffixes(text);
    assert text[|text|..] == [];
    forall start: nat, e: nat, p: nat {:trigger Cut(text, cs, start, e, p)} ensures Cut(text, cs, start, e, p) {
      if Scan(text, start, e, p) && p < |text| && text[p] == '/' { ScanEnds(text, start, e, p); }
    }
  }

  lemma NextOf(all: seq<Name>, k: nat, first: Name, rest: seq<Name>)
    requires k <= |all| && all[k..] == [first] + rest
    ensures k < |all| && all[k] == first && all[k + 1..] == rest
  {
    assert all[k..][0] == all[k] && all[k..][1..] == all[k + 1..];
  }

  /** One round of the loop, up to the test of the index: whether a component has ended. */
  method Advance(buf: array<char>, ghost text: Name, ghost start: nat, ghost e: nat, ptr: nat)
    returns (ended: bool, ghost e': nat)
    requires Scan(text, start, e, ptr) && Snipped(buf[..], text, ptr) && ptr < |text| && (e < ptr ==> buf[e] == '\0')
    modifies buf
    ensures Snipped(buf[..], text, ptr + 1)
    ensures !ended ==> Scan(text, start, e', ptr + 1) && (e' < ptr + 1 ==> buf[e'] == '\0')
    ensures ended ==> text[ptr] == '/' && Scan(text, ptr + 1, ptr + 1, ptr + 1) && buf[e] == '\0'
  {
    ghost var b := buf[..];
    ScanMore(text, start, e, ptr);
    Snip(b, text, ptr);
    if buf[ptr] == '/' && buf[ptr + 1] == '/' {
      buf[ptr] := '\0';
      assert buf[..] == b[ptr := '\0'];
      return false, e;
    }
    if buf[ptr] == '/' {
      buf[ptr] := '\0';
      assert buf[..] == b[ptr := '\0'];
      return true, e;
    }
    return false, ptr + 1;
  }

  /** The scan from the first component on. */
  method Collect(buf: array<char>, ghost text: Name, ghost cs: seq<seq<Name>>, from: nat, index: nat)
    returns (r: Option<Name>)
    requires Scan(text, from, from, from) && Snipped(buf[..], text, from) && Cuts(text, cs)
    requires text != [] && text[|text| - 1] == '/' && '\0' !in text
    modifies buf
    ensures r == if index < |cs[from]| then Some(cs[from][index]) else None
  {
    ghost var all := cs[from];
    var idx, ptr, start := index + 1, from, from;
    ghost var e: nat, k := from, 0;
    while buf[ptr] != '\0'
      invariant Scan(text, start, e, ptr) && Snipped(buf[..], text, ptr) && (e < ptr ==> buf[e] == '\0')
      invariant 0 < idx == index + 1 - k && k <= |all| && all[k..] == cs[start]
      decreases |text| - ptr
    {
      var ended;
      ghost var e';
      ended, e' := Advance(buf, text, start, e, ptr);
      if ended {
        assert Cut(text, cs, start, e, ptr);
        NextOf(all, k, text[start..e], cs[ptr + 1]);
        ptr := ptr + 1;
        idx := idx - 1;
        if idx != 0 {
          start, e, k := ptr, ptr, k + 1;
          continue;
        }
        r := NameFrom(buf, text, ptr, start, e);
        return;
      }
      ptr, e := ptr + 1, e';
    }
    assert start == |text|;
    r := None;
  }

  method NameFrom(buf: array<char>, ghost text: Name, ghost p: nat, start: nat, ghost e: nat) returns (r: Option<Name>)
    requires Snipped(buf[..], text, p) && start <= e < |text| && buf[e] == '\0' && '\0' !in text
    requires forall i :: start <= i < e ==> text[i] != '/'
    ensures r == Some(text[start..e])
  {
    assert buf[..][|text|] == '\0';
    var len := StrLen(buf, start);
    NameRead(buf[..], text, p, start, e, len);
    assert buf[start..start + len] == buf[..][start..start + len];
    return Some(buf[start..start + len]);
  }

  /** `vfs_get_fname_at`: the component of that index, or none past the end. */
  method FnameAt(path: Name, index: nat) returns (r: Option<Name>)
    requires '\0' !in path
    ensures r == if index < |Components(path)| then Some(Components(path)[index]) else None
  {
    ghost var text := Text(path);
    var buf := new char[|path| + 2](i requires 0 <= i < |path| + 2 =>
      if i < |path| then path[i] else if i == |path| then '/' else '\0');
    Trailing(path);
    var ptr := 0;
    while buf[ptr] == '/'
      invariant 0 <= ptr <= |text| && Snipped(buf[..], text, 0) && forall i :: 0 <= i < ptr ==> text[i] == '/'
      decreases |text| - ptr
    {
      ptr := ptr + 1;
    }
    Leading(text, ptr);
    SuffixesCut(text);
    r := Collect(buf, text, Suffixes(text), ptr, index);
  }

  // ---------- the walk ----------

  /** Looking up one name after the other, from a directory on; it stops where a lookup fails. */
  function Walk<V>(lookup: (V, Name) -> Option<V>, dir: V, names: seq<Name>): Option<V> {
    if names == [] then Some(dir)
    else
      match lookup(dir, names[0])
      case None => None
      case Some(v) => Walk(lookup, v, names[1..])
  }

  lemma {:induction false} WalkAppend<V>(lookup: (V, Name) -> Option<V>, dir: V, names: seq<Name>, name: Name)
    ensures Walk(lookup, dir, names + [name]) ==
      match Walk(lookup, dir, names) case None => None case Some(v) => lookup(v, name)
    decreases |names|
  {
    if names == [] {
      assert names + [name] == [name] && [name][1..] == [];
    } else {
      assert (names + [name])[1..] == names[1..] + [name];
      match lookup(dir, names[0])
      case None =>
      case Some(v) => WalkAppend(lookup, v, names[1..], name);
    }
  }

  /** A way down: from the root, where the first component is, each next entry is the next component looked up. */
  ghost predicate Way<V>(lookup: (V, Name) -> Option<V>, root: V, names: seq<Name>, m: nat, vs: seq<V>, v: V) {
    && m <= |names| && |vs| == (if m == 0 then 1 else m) && vs[0] == root && vs[|vs| - 1] == v
    && forall i :: 1 <= i < m ==> lookup(vs[i - 1], names[i]) == Some(vs[i])
  }

  /** The result is where a way along the first `m` components ends; there is none if there is no such way. */
  ghost predicate Reached<V(!new)>(
    lookup: (V, Name) -> Option<V>, root: V, names: seq<Name>, m: nat, r: Option<V>)
  {
    forall v :: r == Some(v) <==> exists vs :: Way(lookup, root, names, m, vs, v)
  }

  lemma {:induction false} WayWalked<V>(
    lookup: (V, Name) -> Option<V>, root: V, names: seq<Name>, m: nat, vs: seq<V>, v: V)
    requires Way(lookup, root, names, m, vs, v)
    ensures Walk(lookup, root, Below(names, m)) == Some(v)
    decreases m
  {
    if m > 1 {
      WayWalked(lookup, root, names, m - 1, vs[..m - 1], vs[m - 2]);
      WalkAppend(lookup, root, names[1..m - 1], names[m - 1]);
      assert names[1..m] == names[1..m - 1] + [names[m - 1]];
    }
  }

  lemma {:induction false} WalkedWay<V>(lookup: (V, Name) -> Option<V>, root: V, names: seq<Name>, m: nat, v: V)
    returns (vs: seq<V>)
    requires m <= |names| && Walk(lookup, root, Below(names, m)) == Some(v)
    ensures Way(lookup, root, names, m, vs, v)
    decreases m
  {
    if m <= 1 {
      vs := [root];
    } else {
      WalkAppend(lookup, root, names[1..m - 1], names[m - 1]);
      assert names[1..m] == names[1..m - 1] + [names[m - 1]];
      var w := Walk(lookup, root, names[1..m - 1]).value;
      var us := WalkedWay(lookup, root, names, m - 1, w);
      vs := us + [v];
    }
  }

  lemma WalkReaches<V(!new)>(lookup: (V, Name) -> Option<V>, root: V, names: seq<Name>, m: nat)
    requires m <= |names|
    ensures Reached(lookup, root, names, m, Walk(lookup, root, Below(names, m)))
  {
    var r := Walk(lookup, root, Below(names, m));
    forall v
      ensures r == Some(v) <==> exists vs :: Way(lookup, root, names, m, vs, v)
    {
      if r == Some(v) {
        var vs := WalkedWay(lookup, root, names, m, v);
      }
      forall vs | Way(lookup, root, names, m, vs, v) ensures r == Some(v) {
        WayWalked(lookup, root, names, m, vs, v);
      }
    }
  }

  /** How many components the search stops before, given the number there are; both counters have 8 bits. */
  function Limit(n: nat, wantParent: bool): nat {
    var m := n % 256;
    var k := if wantParent then (m + 255) % 256 else m;
    if k < n then k else n
  }

  /** The components to look up: the first names the mount point. */
  function Below(names: seq<Name>, limit: nat): seq<Name>
    requires limit <= |names|
  {
    if limit == 0 then [] else names[1..limit]
  }

  /** The search covers the whole path exactly if it has fewer than 256 components, and all but the last up to 256. */
  lemma LimitExact(n: nat)
    ensures Limit(n, false) == n <==> n < 256
    ensures n > 0 ==> (Limit(n, true) == n - 1 <==> n <= 256)
    ensures Limit(0, true) == 0
  {
  }

  lemma LimitIs(n: nat, wantParent: bool)
    ensures Limit(n, wantParent) == if !wantParent then n % 256 else if n == 0 then 0 else (n - 1) % 256
  {
    Wraps(n);
  }

  /** A path of `n` components. */
  function Deep(n: nat): Name {
    if n == 0 then [] else "/a" + Deep(n - 1)
  }

  lemma {:induction false} DeepComponents(n: nat)
    ensures |Components(Deep(n))| == n
  {
    if n > 0 {
      DeepComponents(n - 1);
      var t := Deep(n - 1);
      FirstChar('a', t);
      assert Deep(n)[1..] == ['a'] + t;
    }
  }

  /** Of a path of 256 components none is looked up. */
  lemma DeepInput()
    ensures var names := Components(Deep(256));
      |names| == 256 && Below(names, Limit(|names|, false)) == [] && names[1..] != []
  {
    DeepComponents(256);
  }

  /** The loop of the search: the components from the second on, up to a count, are looked up. */
  method Descend<V>(root: V, path: Name, count: nat, lookup: (V, Name) -> Option<V>) returns (r: Option<V>)
    requires '\0' !in path
    ensures var names := Components(path);
      r == Walk(lookup, root, Below(names, if count < |names| then count else |names|))
  {
    ghost var names := Components(path);
    ghost var limit := if count < |names| then count else |names|;
    var vp := root;
    var i := 1;
    assert |names| > 0 ==> names[1..1] == [];
    while i < count
      invariant 1 <= i && (i == 1 || i <= limit)
      invariant Some(vp) == Walk(lookup, root, if i <= |names| then names[1..i] else [])
      decreases count - i
    {
      var name := FnameAt(path, i);
      if name.None? {
        break;
      }
      assert names[1..i + 1] == names[1..i] + [names[i]];
      WalkAppend(lookup, root, names[1..i], names[i]);
      var next := lookup(vp, name.value);
      if next.None? {
        Stuck(lookup, root, names[1..i + 1], names[1..limit]);
        return None;
      }
      vp := next.value;
      i := i + 1;
    }
    r := Some(vp);
  }

  /** `namei_mp_search`; `m` components are walked along, all or all but the last up to the limit of 8 bits. */
  method MpSearch<V(!new)>(root: V, path: Name, wantParent: bool, lookup: (V, Name) -> Option<V>)
    returns (r: Option<V>)
    requires path != [] && path[0] == '/' && '\0' !in path
    ensures var names := Components(path); r == Walk(lookup, root, Below(names, Limit(|names|, wantParent)))
    ensures
      var names := Components(path);
      var m := if !wantParent then |names| % 256 else if names == [] then 0 else (|names| - 1) % 256;
      Reached(lookup, root, names, m, r)
  {
    ghost var names := Components(path);
    var count := NumCnp(path);
    if wantParent {
      count := (count + 255) % 256;
    }
    r := Descend(root, path, count, lookup);
    LimitIs(|names|, wantParent);
    WalkReaches(lookup, root, names, Limit(|names|, wantParent));
  }

  /** A walk that fails on a prefix fails. */
  lemma {:induction false} Stuck<V>(lookup: (V, Name) -> Option<V>, dir: V, a: seq<Name>, b: seq<Name>)
    requires |a| <= |b| && b[..|a|] == a && Walk(lookup, dir, a) == None
    ensures Walk(lookup, dir, b) == None
    decreases |a|
  {
    assert a[0] == b[0] && b[1..][..|a| - 1] == a[1..];
    match lookup(dir, a[0])
    case None =>
    case Some(v) => Stuck(lookup, v, a[1..], b[1..]);
  }
}

/** Mount points found by path: slash-separated components, the longest mounted prefix wins. */
module VfsPaths {
  import opened Basics

  // --- components ---

  function WordLen(s: bytes): (n: nat)
    ensures n <= |s| && (n < |s| ==> s[n] == SLASH) && forall i :: 0 <= i < n ==> s[i] != SLASH
  {
    if s == [] || s[0] == SLASH then 0 else 1 + WordLen(s[1..])
  }

  /** The names between the slashes; repeated, leading and trailing slashes do not count. */
  function Components(s: bytes): (cs: seq<bytes>)
    ensures forall c :: c in cs ==> c != [] && SLASH !in c
    decreases |s|
  {
    if s == [] then []
    else if s[0] == SLASH then Components(s[1..])
    else [s[..WordLen(s)]] + Components(s[WordLen(s)..])
  }

  function Slashes(n: nat): (s: bytes)
    ensures |s| == n
  {
    seq(n, _ => SLASH)
  }

  /** Names, each with the slashes in front of it, and the slashes at the end. */
  function Joined(parts: seq<(nat, bytes)>, tail: nat): bytes {
    if parts == [] then Slashes(tail) else Slashes(parts[0].0) + parts[0].1 + Joined(parts[1..], tail)
  }

  function NamesOf(parts: seq<(nat, bytes)>): (cs: seq<bytes>)
    ensures |cs| == |parts|
  {
    if parts == [] then [] else [parts[0].1] + NamesOf(parts[1..])
  }

  /** Names are not empty and hold no slash; between two there is at least one. */
  ghost predicate Proper(parts: seq<(nat, bytes)>) {
    && (forall i :: 0 <= i < |parts| ==> parts[i].1 != [] && SLASH !in parts[i].1)
    && (forall i :: 0 < i < |parts| ==> parts[i].0 > 0)
  }

  lemma {:induction false} SlashesSkipped(n: nat, s: bytes)
    ensures Components(Slashes(n) + s) == Components(s)
  {
    if n == 0 {
      assert Slashes(0) + s == s;
    } else {
      assert (Slashes(n) + s)[1..] == Slashes(n - 1) + s;
      SlashesSkipped(n - 1, s);
    }
  }

  lemma NameFirst(name: bytes, rest: bytes)
    requires name != [] && SLASH !in name && (rest == [] || rest[0] == SLASH)
    ensures Components(name + rest) == [name] + Components(rest)
  {
    var s := name + rest;
    var n := WordLen(s);
    assert forall i :: 0 <= i < |name| ==> s[i] == name[i];
    assert rest != [] ==> s[|name|] == SLASH;
    assert s[..n] == name && s[n..] == rest;
  }

  lemma {:induction false} JoinedComponents(parts: seq<(nat, bytes)>, tail: nat)
    requires Proper(parts)
    ensures Components(Joined(parts, tail)) == NamesOf(parts)
    decreases parts
  {
    if parts == [] {
      assert Slashes(tail) + [] == Slashes(tail);
      SlashesSkipped(tail, []);
    } else {
      var rest := Joined(parts[1..], tail);
      JoinedComponents(parts[1..], tail);
      assert rest == [] || rest[0] == SLASH;
      NameFirst(parts[0].1, rest);
      SlashesSkipped(parts[0].0, parts[0].1 + rest);
      assert Joined(parts, tail) == Slashes(parts[0].0) + (parts[0].1 + rest);
    }
  }

  lemma {:induction false} PathJoined(s: bytes) returns (parts: seq<(nat, bytes)>, tail: nat)
    ensures Proper(parts) && Joined(parts, tail) == s
    ensures s != [] && s[0] != SLASH ==> parts != [] && parts[0].0 == 0
    ensures s != [] && s[0] == SLASH && parts != [] ==> parts[0].0 > 0
    decreases |s|
  {
    if s == [] {
      parts, tail := [], 0;
    } else if s[0] == SLASH {
      parts, tail := PathJoined(s[1..]);
      parts, tail := SlashInFront(parts, tail);
      assert s == [SLASH] + s[1..];
    } else {
      var n := WordLen(s);
      parts, tail := PathJoined(s[n..]);
      parts := NameInFront(s[..n], parts, tail);
      assert s == s[..n] + s[n..];
    }
  }

  lemma SlashInFront(parts: seq<(nat, bytes)>, tail: nat) returns (more: seq<(nat, bytes)>, end: nat)
    requires Proper(parts)
    ensures Proper(more) && Joined(more, end) == [SLASH] + Joined(parts, tail)
    ensures more != [] ==> more[0].0 > 0
  {
    if parts == [] {
      more, end := [], tail + 1;
      assert Slashes(tail + 1) == [SLASH] + Slashes(tail);
    } else {
      var (n, name) := parts[0];
      more, end := [(n + 1, name)] + parts[1..], tail;
      assert Slashes(n + 1) == [SLASH] + Slashes(n);
      assert more[1..] == parts[1..];
      assert [SLASH] + Slashes(n) + name + Joined(parts[1..], tail)
          == [SLASH] + (Slashes(n) + name + Joined(parts[1..], tail));
    }
  }

  lemma NameInFront(name: bytes, parts: seq<(nat, bytes)>, tail: nat) returns (more: seq<(nat, bytes)>)
    requires Proper(parts) && name != [] && SLASH !in name && (parts != [] ==> parts[0].0 > 0)
    ensures Proper(more) && Joined(more, tail) == name + Joined(parts, tail) && more != [] && more[0].0 == 0
  {
    more := [(0, name)] + parts;
    assert more[1..] == parts;
    assert Slashes(0) + name == name;
  }

  /** The components of a path are the names it is made of, whatever slashes stand around them. */
  lemma ComponentsExactly(s: bytes, cs: seq<bytes>)
    ensures Components(s) == cs <==>
      exists parts, tail :: Proper(parts) && Joined(parts, tail) == s && NamesOf(parts) == cs
  {
    var own, end := PathJoined(s);
    JoinedComponents(own, end);
    forall parts, tail | Proper(parts) && Joined(parts, tail) == s ensures Components(s) == NamesOf(parts) {
      JoinedComponents(parts, tail);
    }
  }

  function TotalLen(cs: seq<bytes>): nat {
    if cs == [] then 0 else |cs[0]| + TotalLen(cs[1..])
  }

  lemma {:induction false} TotalLenAppend(cs: seq<bytes>, c: bytes)
    ensures TotalLen(cs + [c]) == TotalLen(cs) + |c|
  {
    if cs == [] {
      assert cs + [c] == [c];
    } else {
      TotalLenAppend(cs[1..], c);
      assert (cs + [c])[1..] == cs[1..] + [c];
    }
  }

  lemma {:induction false} PrefixShorter(a: seq<bytes>, b: seq<bytes>)
    requires a <= b && forall i :: 0 <= i < |b| ==> b[i] != []
    ensures TotalLen(a) <= TotalLen(b) && (|a| < |b| ==> TotalLen(a) < TotalLen(b))
    decreases a
  {
    if a != [] {
      assert a[1..] == b[1..][..|a| - 1];
      PrefixShorter(a[1..], b[1..]);
    }
  }

  // --- one mount point against a path ---

  /** Index at is past the name or the slashes matched so far: done went before it, in whole components. */
  ghost predicate Past(s: bytes, at: nat, done: seq<bytes>) {
    at <= |s| && Components(s) == done + Components(s[at..])
  }

  method SkipSlashes(s: bytes, from: nat) returns (at: nat)
    requires from <= |s|
    ensures from <= at <= |s| && Components(s[at..]) == Components(s[from..]) && (at < |s| ==> s[at] != SLASH)
  {
    at := from;
    while at < |s| && s[at] == SLASH
      invariant from <= at <= |s| && Components(s[at..]) == Components(s[from..])
    {
      assert s[at..][1..] == s[at + 1..];
      at := at + 1;
    }
  }

  lemma PastSlashes(s: bytes, from: nat, at: nat, done: seq<bytes>)
    requires Past(s, from, done) && at <= |s| && Components(s[at..]) == Components(s[from..])
    ensures Past(s, at, done)
  {
  }

  lemma PastWithin(s: bytes, at: nat, done: seq<bytes>)
    requires Past(s, at, done)
    ensures at <= |s|
  {
  }

  /** strchr for the next slash; the end of the string when there is none. */
  method NameEnd(s: bytes, from: nat) returns (end: nat)
    requires from <= |s|
    ensures end == from + WordLen(s[from..]) <= |s|
  {
    end := from;
    while end < |s| && s[end] != SLASH
      invariant from <= end <= |s| && from + WordLen(s[from..]) == end + WordLen(s[end..])
    {
      assert s[end..][1..] == s[end + 1..];
      end := end + 1;
    }
  }

  /** strncmp of n bytes, where the second string may end earlier. */
  predicate SameBytes(a: bytes, i: nat, b: bytes, j: nat, n: nat)
    requires i + n <= |a|
  {
    j + n <= |b| && a[i..i + n] == b[j..j + n]
  }

  /** At the first byte of a name, the name is the next component. */
  lemma NextName(s: bytes, at: nat, done: seq<bytes>)
    requires Past(s, at, done) && at < |s| && s[at] != SLASH
    ensures var end := at + WordLen(s[at..]);
      end <= |s| && Past(s, end, done + [s[at..end]]) && |done| < |Components(s)| && Components(s)[|done|] == s[at..end]
  {
    hide Components, WordLen;
    FirstName(s, at);
    var end := at + WordLen(s[at..]);
    OneMore(done, s[at..end], Components(s[end..]));
  }

  lemma FirstName(s: bytes, at: nat)
    requires at < |s| && s[at] != SLASH
    ensures var end := at + WordLen(s[at..]); end <= |s| && Components(s[at..]) == [s[at..end]] + Components(s[end..])
  {
    var t, n := s[at..], WordLen(s[at..]);
    assert t[..n] == s[at..at + n] && t[n..] == s[at + n..];
  }

  lemma OneMore(done: seq<bytes>, c: bytes, rest: seq<bytes>)
    ensures done + ([c] + rest) == done + [c] + rest && (done + ([c] + rest))[|done|] == c
  {
  }

  lemma {:induction false} WordLenIs(s: bytes, at: nat, n: nat)
    requires at + n <= |s| && (at + n == |s| || s[at + n] == SLASH) && forall i :: at <= i < at + n ==> s[i] != SLASH
    ensures WordLen(s[at..]) == n
    decreases n
  {
    if n > 0 {
      assert s[at..][1..] == s[at + 1..];
      WordLenIs(s, at + 1, n - 1);
    }
  }

  lemma NotPrefix(a: seq<bytes>, b: seq<bytes>, i: nat)
    requires i < |a| && (i >= |b| || a[i] != b[i])
    ensures !(a <= b)
  {
  }

  /** The next name of the mount path stands at the same place in the path, and ends there. */
  predicate SameName(m: bytes, mi: nat, end: nat, p: bytes, pi: nat)
    requires mi <= end <= |m|
  {
    SameBytes(m, mi, p, pi, end - mi) && (pi + (end - mi) == |p| || p[pi + (end - mi)] == SLASH)
  }

  lemma NameMatches(m: bytes, mi: nat, end: nat, p: bytes, pi: nat, done: seq<bytes>)
    requires Past(m, mi, done) && mi < |m| && m[mi] != SLASH && end == mi + WordLen(m[mi..]) <= |m|
    requires Past(p, pi, done) && SameName(m, mi, end, p, pi)
    ensures Past(m, end, done + [m[mi..end]]) && Past(p, pi + (end - mi), done + [m[mi..end]])
  {
    hide Past, WordLen, Components, SameName;
    NextName(m, mi, done);
    SameNameParts(m, mi, end, p, pi);
    NextName(p, pi, done);
  }

  lemma SameNameParts(m: bytes, mi: nat, end: nat, p: bytes, pi: nat)
    requires mi < |m| && m[mi] != SLASH && end == mi + WordLen(m[mi..]) <= |m| && SameName(m, mi, end, p, pi)
    ensures pi < |p| && p[pi] != SLASH && WordLen(p[pi..]) == end - mi && p[pi..pi + (end - mi)] == m[mi..end]
  {
    assert end - mi > 0 && m[mi..end][0] == m[mi];
    NoSlashInside(m, mi, end - mi, p, pi);
    WordLenIs(p, pi, end - mi);
  }

  lemma NameDiffers(m: bytes, mi: nat, end: nat, p: bytes, pi: nat, done: seq<bytes>)
    requires Past(m, mi, done) && mi < |m| && m[mi] != SLASH && end == mi + WordLen(m[mi..]) <= |m|
    requires Past(p, pi, done) && (pi < |p| ==> p[pi] != SLASH) && !SameName(m, mi, end, p, pi)
    ensures !(Components(m) <= Components(p))
  {
    hide WordLen, Components, SameName;
    NextName(m, mi, done);
    if pi == |p| {
      AtEnd(p, pi, done);
    } else {
      NextName(p, pi, done);
      NameIs(m, mi, end, p, pi);
    }
    NotPrefix(Components(m), Components(p), |done|);
  }

  lemma NameIs(m: bytes, mi: nat, end: nat, p: bytes, pi: nat)
    requires mi <= end <= |m| && pi < |p| && !SameName(m, mi, end, p, pi)
    ensures p[pi..pi + WordLen(p[pi..])] != m[mi..end]
  {
    var w := WordLen(p[pi..]);
    assert pi + w == |p| || p[pi..][w] == SLASH;
    assert |p[pi..pi + w]| == w && |m[mi..end]| == end - mi;
  }

  lemma NoSlashInside(m: bytes, mi: nat, n: nat, p: bytes, pi: nat)
    requires mi <= |m| && n == WordLen(m[mi..]) && SameBytes(m, mi, p, pi, n)
    ensures forall i :: pi <= i < pi + n ==> p[i] != SLASH
  {
    forall i | pi <= i < pi + n ensures p[i] != SLASH {
      assert p[i] == p[pi..pi + n][i - pi] == m[mi..mi + n][i - pi] == m[mi..][i - pi];
    }
  }

  lemma AtEnd(p: bytes, pi: nat, done: seq<bytes>)
    requires Past(p, pi, done) && pi == |p|
    ensures Components(p) == done
  {
  }

  /** The body of the search loop for one mount point. */
  method Match(m: bytes, p: bytes) returns (ok: bool, matches: nat, at: nat)
    ensures ok <==> Components(m) <= Components(p)
    ensures ok ==> matches == TotalLen(Components(m)) && Past(p, at, Components(m))
  {
    hide Past, Components, WordLen, TotalLen;
    MatchBegins(m);
    MatchBegins(p);
    var mi: nat, pi: nat := 0, 0;
    matches := 0;
    ghost var done: seq<bytes> := [];
    while true
      invariant Past(m, mi, done) && Past(p, pi, done) && matches == TotalLen(done)
      decreases |m| - mi
    {
      PastWithin(m, mi, done);
      PastWithin(p, pi, done);
      var mj := SkipSlashes(m, mi);
      var pj := SkipSlashes(p, pi);
      PastSlashes(m, mi, mj, done);
      PastSlashes(p, pi, pj, done);
      mi, pi := mj, pj;
      if mi == |m| {
        break;
      }
      var end := NameEnd(m, mi);
      var n := end - mi;
      if !SameName(m, mi, end, p, pi) {
        NameDiffers(m, mi, end, p, pi, done);
      } else {
        NameMatches(m, mi, end, p, pi, done);
      }
      if !SameBytes(m, mi, p, pi, n) {
        return false, 0, 0;
      }
      pi := pi + n;
      if pi != |p| && p[pi] != SLASH {
        return false, 0, 0;
      }
      TotalLenAppend(done, m[mi..end]);
      done := done + [m[mi..end]];
      matches := matches + n;
      mi := end;
      if mi == |m| {
        break;
      }
    }
    AtEnd(m, mi, done);
    PastPrefix(p, pi, done);
    return true, matches, pi;
  }

  lemma MatchBegins(s: bytes)
    ensures Past(s, 0, []) && TotalLen([]) == 0
  {
    assert s[0..] == s;
  }

  lemma PastPrefix(s: bytes, at: nat, done: seq<bytes>)
    requires Past(s, at, done)
    ensures done <= Components(s)
  {
  }

  // --- the mount list ---

  /** The mount point's names lead the path; a mount point without names never does. */
  predicate Leads(m: bytes, path: bytes) {
    Components(m) != [] && Components(m) <= Components(path)
  }

  /** Mount point k leads the path with at least as many names as any other. */
  ghost predicate Selected(mounts: seq<bytes>, path: bytes, k: nat) {
    k < |mounts| && Leads(mounts[k], path)
    && forall i :: 0 <= i < |mounts| && Leads(mounts[i], path) ==> |Components(mounts[i])| <= |Components(mounts[k])|
  }

  /** The path splits behind the mount point's names, at the end or at the first byte of a name. */
  ghost predicate SplitAt(m: bytes, path: bytes, at: nat) {
    at <= |path| && (at < |path| ==> path[at] != SLASH) && Components(path) == Components(m) + Components(path[at..])
  }

  lemma MoreNamesLonger(a: bytes, b: bytes, path: bytes)
    requires Components(a) <= Components(path) && Components(b) <= Components(path)
    ensures |Components(a)| < |Components(b)| <==> TotalLen(Components(a)) < TotalLen(Components(b))
    ensures Components(a) == [] <==> TotalLen(Components(a)) == 0
  {
    hide Components, TotalLen;
    var ca, cb := Components(a), Components(b);
    assert forall i :: 0 <= i < |ca| ==> ca[i] in ca;
    assert forall i :: 0 <= i < |cb| ==> cb[i] in cb;
    if |ca| <= |cb| {
      assert ca == cb[..|ca|];
      assert |ca| == |cb| ==> ca == cb;
      PrefixShorter(ca, cb);
    } else {
      assert cb == ca[..|cb|];
      PrefixShorter(cb, ca);
    }
    NothingShortest(ca);
  }

  lemma NothingShortest(cs: seq<bytes>)
    requires forall i :: 0 <= i < |cs| ==> cs[i] != []
    ensures cs == [] <==> TotalLen(cs) == 0
  {
  }

  /** los_mp_find: the longest mounted prefix, wherever it stands in the list, and the rest of the path. */
  method FindMount(mounts: seq<bytes>, path: bytes) returns (best: Option<nat>, rest: nat)
    ensures best == None <==> forall i :: 0 <= i < |mounts| ==> !Leads(mounts[i], path)
    ensures best.Some? ==> Selected(mounts, path, best.value) && SplitAt(mounts[best.value], path, rest)
  {
    hide Components, TotalLen, Past, Leads;
    var bestMatches := 0;
    best, rest := None, 0;
    var k := 0;
    while k < |mounts|
      invariant 0 <= k <= |mounts|
      invariant best == None ==> bestMatches == 0 && forall i :: 0 <= i < k ==> !Leads(mounts[i], path)
      invariant best.Some? ==> best.value < k && Selected(mounts[..k], path, best.value)
      invariant best.Some? ==> SplitAt(mounts[best.value], path, rest)
      invariant best.Some? ==> bestMatches == TotalLen(Components(mounts[best.value]))
    {
      var ok, matches, at := Match(mounts[k], path);
      LeadsIf(mounts[k], path);
      if ok {
        MoreNamesLonger(if best.Some? then mounts[best.value] else mounts[k], mounts[k], path);
      }
      if ok && matches > bestMatches {
        bestMatches := matches;
        best := Some(k);
        PastWithin(path, at, Components(mounts[k]));
        rest := SkipSlashes(path, at);
        PastSlashes(path, at, rest, Components(mounts[k]));
        SplitThere(mounts[k], path, rest);
      }
      k := k + 1;
    }
    assert mounts[..k] == mounts;
  }

  lemma LeadsIf(m: bytes, path: bytes)
    ensures Leads(m, path) <==> Components(m) != [] && Components(m) <= Components(path)
  {
  }

  lemma SplitThere(m: bytes, path: bytes, at: nat)
    requires Past(path, at, Components(m)) && (at < |path| ==> path[at] != SLASH)
    ensures SplitAt(m, path, at)
  {
  }

  /** Apart from those without names, no two mount points have the same names. */
  ghost predicate DistinctMounts(mounts: seq<bytes>) {
    forall i, j :: 0 <= i < |mounts| && 0 <= j < |mounts| && i != j && Components(mounts[i]) != [] ==>
      Components(mounts[i]) != Components(mounts[j])
  }

  /** The test of los_fs_mount refuses exactly the names that are mounted already. */
  lemma MountTaken(mounts: seq<bytes>, path: bytes, best: Option<nat>, rest: nat)
    requires best == None <==> forall i :: 0 <= i < |mounts| ==> !Leads(mounts[i], path)
    requires best.Some? ==> Selected(mounts, path, best.value) && SplitAt(mounts[best.value], path, rest)
    ensures (best.Some? && rest == |path|) <==>
      Components(path) != [] && exists i :: 0 <= i < |mounts| && Components(mounts[i]) == Components(path)
  {
    hide Components;
    if best.Some? {
      RestEmpty(path, rest);
      if i :| 0 <= i < |mounts| && Components(mounts[i]) == Components(path) && Components(path) != [] {
        assert Leads(mounts[i], path);
        assert |Components(path)| == |Components(mounts[best.value])| + |Components(path[rest..])|;
      }
    } else {
      forall i | 0 <= i < |mounts| ensures Components(path) == [] || Components(mounts[i]) != Components(path) {
        assert !Leads(mounts[i], path);
      }
    }
  }

  lemma RestEmpty(path: bytes, rest: nat)
    requires rest <= |path| && (rest < |path| ==> path[rest] != SLASH)
    ensures Components(path[rest..]) == [] <==> rest == |path|
  {
  }

  lemma MountKeepsDistinct(mounts: seq<bytes>, path: bytes)
    requires DistinctMounts(mounts)
    requires Components(path) == [] || forall i :: 0 <= i < |mounts| ==> Components(mounts[i]) != Components(path)
    ensures DistinctMounts([path] + mounts)
  {
    hide Components;
    var longer := [path] + mounts;
    forall i, j | 0 <= i < |longer| && 0 <= j < |longer| && i != j && Components(longer[i]) != []
      ensures Components(longer[i]) != Components(longer[j])
    {
      assert i > 0 ==> longer[i] == mounts[i - 1];
      assert j > 0 ==> longer[j] == mounts[j - 1];
    }
  }

  /** The mount point found does not depend on the order of the list. */
  lemma OrderDoesNotMatter(ms: seq<bytes>, ns: seq<bytes>, path: bytes, k: nat, j: nat)
    requires DistinctMounts(ms) && forall m :: m in ms <==> m in ns
    requires Selected(ms, path, k) && Selected(ns, path, j)
    ensures ms[k] == ns[j]
  {
    hide Components;
    assert ns[j] in ms && ms[k] in ns;
    var i :| 0 <= i < |ms| && ms[i] == ns[j];
    var l :| 0 <= l < |ns| && ns[l] == ms[k];
    var a, b := Components(ms[i]), Components(ms[k]);
    assert |a| == |b|;
    assert a == Components(path)[..|a|] == b;
  }
}

/**
 * Consolidation of a batch of converted documents into one nested object
 * whose hierarchy follows the input directory structure.
 *
 * As written, the plugin builds a flat object keyed by dotted paths, sorts
 * that object's keys and then expands the dotted keys into nested objects.
 * `Expand(SortByKey(Flat(...)))` is that pipeline; `Tree` additionally sorts
 * every level of the expanded object, which is what the plugin promises.
 */
module Consolidate {
  import opened Wrappers
  import opened Json
  import opened Strings

  /** A valid converted document as consolidation sees it: its relative path and its parsed JSON. */
  datatype Entry = Entry(relative: string, value: JValue)

  lemma {:induction false} SplitKeepsAbsent(s: string, c: char, d: char)
    requires d !in s
    ensures forall i :: 0 <= i < |Split(s, c)| ==> d !in Split(s, c)[i]
    decreases |s|
  {
    var i := IndexOf(s, c);
    if i < |s| {
      SplitKeepsAbsent(s[i + 1..], c, d);
      assert forall ch :: ch in s[..i] ==> ch in s;
    }
  }

  /** The relative path up to its first `.`, split into directory segments. */
  function PathSegments(relative: string): (segs: seq<string>)
    ensures |segs| >= 1
    ensures forall i :: 0 <= i < |segs| ==> '.' !in segs[i] && '/' !in segs[i]
    ensures Join(segs, '/') == Split(relative, '.')[0]
  {
    var stem := Split(relative, '.')[0];
    SplitKeepsAbsent(stem, '/', '.');
    Split(stem, '/')
  }

  /**
   * The path key of a document. With `flattenIndex`, a document named like its
   * directory, or named `index`, takes the directory's own key.
   */
  function PathKey(relative: string, flattenIndex: bool): (key: seq<string>)
    ensures var segs := PathSegments(relative);
      && |key| >= 1
      && (key == segs || key == segs[..|segs| - 1])
      && (key != segs <==>
            flattenIndex && |segs| >= 2
            && (segs[|segs| - 1] == segs[|segs| - 2] || segs[|segs| - 1] == "index"))
    ensures forall i :: 0 <= i < |key| ==> '.' !in key[i] && '/' !in key[i]
  {
    var segs := PathSegments(relative);
    if flattenIndex && |segs| >= 2
       && (segs[|segs| - 1] == segs[|segs| - 2] || segs[|segs| - 1] == "index")
    then segs[..|segs| - 1]
    else segs
  }

  /** The flat object's property name for a document: its path key joined with dots. */
  function DottedKey(relative: string, flattenIndex: bool): string {
    Join(PathKey(relative, flattenIndex), '.')
  }

  /** Splitting a dotted key on `.` gives the path key back: keys and paths are in one-to-one correspondence. */
  lemma DottedKeySplits(relative: string, flattenIndex: bool)
    ensures Split(DottedKey(relative, flattenIndex), '.') == PathKey(relative, flattenIndex)
  {
    SplitJoin(PathKey(relative, flattenIndex), '.');
  }

  /** The flat object after storing every document, in order, under its dotted key. */
  function Flat(entries: seq<Entry>, flattenIndex: bool): (data: seq<Member>)
    ensures UniqueKeys(data)
    decreases |entries|
  {
    if entries == [] then []
    else
      var last := entries[|entries| - 1];
      var prior := Flat(entries[..|entries| - 1], flattenIndex);
      SetMembers(prior, DottedKey(last.relative, flattenIndex), last.value);
      Set(prior, DottedKey(last.relative, flattenIndex), last.value)
  }

  /** The loop that fills the flat object. */
  method CollectFlat(entries: seq<Entry>, flattenIndex: bool) returns (data: seq<Member>)
    ensures data == Flat(entries, flattenIndex)
  {
    data := [];
    var i := 0;
    while i < |entries|
      invariant 0 <= i <= |entries|
      invariant data == Flat(entries[..i], flattenIndex)
    {
      var path := SplicePath(entries[i].relative, flattenIndex);
      FlatStep(entries, flattenIndex, i);
      data := Set(data, Join(path, '.'), entries[i].value);
      i := i + 1;
    }
    assert entries[..|entries|] == entries;
  }

  /** One more document stores its record under its dotted key. */
  lemma FlatStep(entries: seq<Entry>, flattenIndex: bool, i: nat)
    requires i < |entries|
    ensures Flat(entries[..i + 1], flattenIndex) ==
              Set(Flat(entries[..i], flattenIndex), DottedKey(entries[i].relative, flattenIndex), entries[i].value)
  {
    assert entries[..i + 1][..i] == entries[..i];
  }

  /** The path of one document, splicing its last two segments when flattening. */
  method SplicePath(relative: string, flattenIndex: bool) returns (path: seq<string>)
    ensures path == PathKey(relative, flattenIndex)
  {
    path := Split(Split(relative, '.')[0], '/');
    if |path| >= 2 && flattenIndex {
      var relPath := path[|path| - 2..];
      path := path[..|path| - 2];
      if relPath[0] == relPath[1] || relPath[1] == "index" {
        path := path + [relPath[0]];
      } else {
        path := path + relPath;
      }
    }
  }

  /** A document whose key no later document shares is found under that key in the flat object. */
  lemma {:induction false} LastWriteWins(entries: seq<Entry>, flattenIndex: bool, i: nat)
    requires i < |entries|
    requires forall j :: i < j < |entries| ==>
               DottedKey(entries[j].relative, flattenIndex) != DottedKey(entries[i].relative, flattenIndex)
    ensures Get(Flat(entries, flattenIndex), DottedKey(entries[i].relative, flattenIndex)) == Some(entries[i].value)
    decreases |entries|
  {
    if i < |entries| - 1 {
      var prefix := entries[..|entries| - 1];
      assert forall j :: i < j < |prefix| ==> prefix[j] == entries[j];
      LastWriteWins(prefix, flattenIndex, i);
    }
  }

  /** The documents' dotted keys, in input order. */
  function DottedKeys(entries: seq<Entry>, flattenIndex: bool): (ks: seq<string>)
    ensures |ks| == |entries|
    ensures forall j :: 0 <= j < |entries| ==> ks[j] == DottedKey(entries[j].relative, flattenIndex)
  {
    seq(|entries|, j requires 0 <= j < |entries| => DottedKey(entries[j].relative, flattenIndex))
  }

  /** The flat object's property names are exactly the documents' dotted keys. */
  lemma {:induction false} FlatKeys(entries: seq<Entry>, flattenIndex: bool)
    ensures forall m :: m in Flat(entries, flattenIndex) ==> m.key in DottedKeys(entries, flattenIndex)
    ensures forall k :: k in DottedKeys(entries, flattenIndex) ==> Get(Flat(entries, flattenIndex), k).Some?
    decreases |entries|
  {
    if entries != [] {
      var n := |entries|;
      var prefix := entries[..n - 1];
      FlatKeys(prefix, flattenIndex);
      var ks := DottedKeys(entries, flattenIndex);
      assert DottedKeys(prefix, flattenIndex) == ks[..n - 1];
      assert ks == ks[..n - 1] + [ks[n - 1]];
      var prior := Flat(prefix, flattenIndex);
      SetMembers(prior, ks[n - 1], entries[n - 1].value);
      forall k | k in ks ensures Get(Flat(entries, flattenIndex), k).Some? {
        if k != ks[n - 1] {
          assert k in ks[..n - 1];
          assert Get(prior, k).Some?;
        }
      }
    }
  }

  // ---------------------------------------------------------------------
  // Sorting an object's properties by name (sort-object, ascending)
  // ---------------------------------------------------------------------

  /** Property names in ascending code-point order. */
  predicate SortedByKey(ms: seq<Member>) {
    forall i, j :: 0 <= i < j < |ms| ==> !LexLess(ms[j].key, ms[i].key)
  }

  /** A member no greater than the first of a sorted object may go in front of it. */
  lemma InFrontSorted(m: Member, ms: seq<Member>)
    requires SortedByKey(ms) && (ms == [] || !LexLess(ms[0].key, m.key))
    ensures SortedByKey([m] + ms)
  {
    forall j | 0 <= j < |ms| ensures !LexLess(ms[j].key, m.key) {
      LexLessTotal(m.key, ms[0].key);
      if j > 0 && LexLess(m.key, ms[0].key) && LexLess(ms[j].key, m.key) {
        LexLessTransitive(ms[j].key, m.key, ms[0].key);
      }
    }
  }

  /** A member smaller than every member of a sorted object may go in front of it. */
  lemma BelowAllSorted(m: Member, rest: seq<Member>)
    requires SortedByKey(rest)
    requires forall y :: y in multiset(rest) ==> !LexLess(y.key, m.key)
    ensures SortedByKey([m] + rest)
  {
    forall j | 0 <= j < |rest| ensures !LexLess(rest[j].key, m.key) {
      assert rest[j] in multiset(rest);
    }
  }

  /** `m` placed before the first member whose name is not smaller. */
  function InsertByKey(m: Member, ms: seq<Member>): (r: seq<Member>)
    requires SortedByKey(ms)
    ensures SortedByKey(r)
    ensures multiset(r) == multiset(ms) + multiset{m}
  {
    if ms == [] || !LexLess(ms[0].key, m.key) then
      InFrontSorted(m, ms);
      [m] + ms
    else
      var rest := InsertByKey(m, ms[1..]);
      assert ms == [ms[0]] + ms[1..];
      forall y | y in multiset(rest) ensures !LexLess(y.key, ms[0].key) {
        if y == m { LexLessAsymmetric(ms[0].key, m.key); }
        else {
          assert y in ms[1..];
          var j :| 0 <= j < |ms[1..]| && ms[1..][j] == y;
          assert ms[j + 1] == y;
        }
      }
      BelowAllSorted(ms[0], rest);
      [ms[0]] + rest
  }

  /** Inserting `m` makes its name read `m`'s value and leaves every other name's value alone. */
  lemma {:induction false} InsertGet(m: Member, ms: seq<Member>, k: string)
    requires SortedByKey(ms)
    ensures Get(InsertByKey(m, ms), k) == if k == m.key then Some(m.value) else Get(ms, k)
  {
    if !(ms == [] || !LexLess(ms[0].key, m.key)) {
      InsertGet(m, ms[1..], k);
      LexLessIrreflexive(m.key);
    }
  }

  /** The object with its properties reordered by name; a stable insertion sort. */
  function SortByKey(ms: seq<Member>): (r: seq<Member>)
    ensures SortedByKey(r)
    ensures multiset(r) == multiset(ms)
  {
    if ms == [] then []
    else
      assert ms == [ms[0]] + ms[1..];
      InsertByKey(ms[0], SortByKey(ms[1..]))
  }

  /** Sorting changes no property's value. */
  lemma {:induction false} SortGet(ms: seq<Member>, k: string)
    ensures Get(SortByKey(ms), k) == Get(ms, k)
  {
    if ms != [] {
      SortGet(ms[1..], k);
      InsertGet(ms[0], SortByKey(ms[1..]), k);
    }
  }

  /** Sorting an object whose names are already in order changes nothing. */
  lemma {:induction false} SortSortedIsIdentity(ms: seq<Member>)
    requires SortedByKey(ms)
    ensures SortByKey(ms) == ms
  {
    if ms != [] {
      SortSortedIsIdentity(ms[1..]);
      assert ms[1..] == [] || !LexLess(ms[1].key, ms[0].key);
    }
  }

  /** Putting a member with a new name in front keeps names unique. */
  lemma ConsUnique(m: Member, rest: seq<Member>)
    requires UniqueKeys(rest)
    requires forall y :: y in multiset(rest) ==> y.key != m.key
    ensures UniqueKeys([m] + rest)
  {
    forall j | 0 <= j < |rest| ensures rest[j].key != m.key {
      assert rest[j] in multiset(rest);
    }
  }

  /** A member whose name is new keeps the names unique when inserted. */
  lemma {:induction false} InsertUnique(m: Member, ms: seq<Member>)
    requires SortedByKey(ms) && UniqueKeys(ms)
    requires forall y :: y in multiset(ms) ==> y.key != m.key
    ensures UniqueKeys(InsertByKey(m, ms))
  {
    if ms == [] || !LexLess(ms[0].key, m.key) {
      ConsUnique(m, ms);
    } else {
      var rest := InsertByKey(m, ms[1..]);
      assert ms == [ms[0]] + ms[1..];
      InsertUnique(m, ms[1..]);
      TailApart(ms);
      forall y: Member | y in multiset(rest) ensures y.key != ms[0].key {
        if y == m {
          assert ms[0] in multiset(ms);
        }
      }
      ConsUnique(ms[0], rest);
    }
  }

  /** Sorting keeps the set of names, so names stay unique. */
  lemma {:induction false} SortKeepsUnique(ms: seq<Member>)
    requires UniqueKeys(ms)
    ensures UniqueKeys(SortByKey(ms))
  {
    if ms != [] {
      var rest := SortByKey(ms[1..]);
      SortKeepsUnique(ms[1..]);
      forall y: Member | y in multiset(rest) ensures y.key != ms[0].key {
        assert y in ms[1..];
        var x :| 0 <= x < |ms[1..]| && ms[1..][x] == y;
        assert ms[x + 1] == y;
      }
      InsertUnique(ms[0], rest);
    }
  }

  // ---------------------------------------------------------------------
  // Expanding dotted property names into nested objects (expand-hash)
  // ---------------------------------------------------------------------

  /**
   * set-value's last step: an object set where an object already is gets
   * merged into a copy of it (`extend({}, current, value)`), so the new
   * object's properties win and the others stay; anything else replaces.
   */
  function Layer(current: Option<JValue>, v: JValue): (r: JValue)
    ensures !v.JObj? ==> r == v
    ensures v.JObj? ==> r.JObj?
    ensures v.JObj? ==> forall k :: Get(v.members, k).None? ==>
              Get(r.members, k) == if current.Some? && current.value.JObj? then Get(current.value.members, k) else None
    ensures v.JObj? && UniqueKeys(v.members) ==>
              forall k :: Get(v.members, k).Some? ==> Get(r.members, k) == Get(v.members, k)
  {
    if current.Some? && current.value.JObj? && v.JObj? then JObj(Assign(current.value.members, v.members))
    else v
  }

  /**
   * Setting the value at a path (set-value): a missing step, or one holding
   * neither an object nor an array, becomes an empty object, and the value is
   * layered over what the last step holds. An array on the way is kept, and
   * the rest of the path becomes named properties of the array, which
   * `JSON.stringify` drops; so the array, and the whole tree, stay as they were.
   */
  function SetPath(t: JValue, path: seq<string>, v: JValue): (r: JValue)
    requires |path| >= 1
    ensures r.JObj?
    decreases |path|
  {
    var ms := if t.JObj? then t.members else [];
    if |path| == 1 then JObj(Set(ms, path[0], Layer(Get(ms, path[0]), v)))
    else
      var child := match Get(ms, path[0]) case Some(c) => c case None => JObj([]);
      if child.JArr? then JObj(ms)
      else JObj(Set(ms, path[0], SetPath(child, path[1..], v)))
  }

  /** An array lies on the way to the last step of `p`: at some proper, non-empty prefix of `p`. */
  predicate ArrayAbove(t: JValue, p: seq<string>)
    decreases |p|
  {
    |p| >= 2 && t.JObj? &&
    match Get(t.members, p[0])
    case Some(c) => c.JArr? || ArrayAbove(c, p[1..])
    case None => false
  }

  /** Setting a path that runs through an array changes nothing. */
  lemma {:induction false} SetPathThroughArray(t: JValue, p: seq<string>, v: JValue)
    requires |p| >= 1 && ArrayAbove(t, p)
    ensures SetPath(t, p, v) == t
    decreases |p|
  {
    var c := Get(t.members, p[0]).value;
    if !c.JArr? {
      SetPathThroughArray(c, p[1..], v);
      SetSame(t.members, p[0], c);
    }
  }

  predicate IsPrefix(p: seq<string>, q: seq<string>) {
    |p| <= |q| && q[..|p|] == p
  }

  predicate IsStrictPrefix(p: seq<string>, q: seq<string>) {
    |p| < |q| && q[..|p|] == p
  }

  /** Neither path is a prefix of the other. */
  predicate Apart(p: seq<string>, q: seq<string>) {
    !IsPrefix(p, q) && !IsPrefix(q, p)
  }

  /** Looking up a path in two steps: the rest of the path in what its first part finds. */
  lemma {:induction false} LookupConcat(t: JValue, p: seq<string>, r: seq<string>)
    ensures Lookup(t, p + r) == match Lookup(t, p) case Some(x) => Lookup(x, r) case None => None
    decreases |p|
  {
    if p == [] {
      assert p + r == r;
    } else {
      assert (p + r)[0] == p[0] && (p + r)[1..] == p[1..] + r;
      if t.JObj? {
        match Get(t.members, p[0])
        case Some(c) => LookupConcat(c, p[1..], r);
        case None =>
      }
    }
  }

  /**
   * Looking up at or below a set path with no array on the way reads from
   * the value set, layered over what the path held.
   */
  lemma {:induction false} LookupSetPathBelow(t: JValue, p: seq<string>, v: JValue, q: seq<string>)
    requires |p| >= 1 && IsPrefix(p, q) && !ArrayAbove(t, p)
    ensures Lookup(SetPath(t, p, v), q) == Lookup(Layer(Lookup(t, p), v), q[|p|..])
    decreases |p|
  {
    var ms := if t.JObj? then t.members else [];
    if |p| == 1 {
      LookupThroughSet(ms, p[0], Layer(Get(ms, p[0]), v), q);
      LookupOne(t, p);
    } else {
      var child := match Get(ms, p[0]) case Some(c) => c case None => JObj([]);
      LookupThroughSet(ms, p[0], SetPath(child, p[1..], v), q);
      LookupSetPathBelow(child, p[1..], v, q[1..]);
      assert q[1..][|p| - 1..] == q[|p|..];
      LookupChild(t, p);
    }
  }

  /** Looking up through a property just set reads on in its new value. */
  lemma LookupThroughSet(ms: seq<Member>, k: string, w: JValue, q: seq<string>)
    requires |q| >= 1 && q[0] == k
    ensures Lookup(JObj(Set(ms, k, w)), q) == Lookup(w, q[1..])
  {
  }

  lemma LookupOne(t: JValue, p: seq<string>)
    requires |p| == 1
    ensures Lookup(t, p) == Get(if t.JObj? then t.members else [], p[0])
  {
    assert p[1..] == [];
  }

  /** The rest of a path finds in the child SetPath descends into what the whole path finds. */
  lemma LookupChild(t: JValue, p: seq<string>)
    requires |p| >= 2
    ensures var ms := if t.JObj? then t.members else [];
      var child := match Get(ms, p[0]) case Some(c) => c case None => JObj([]);
      Lookup(child, p[1..]) == Lookup(t, p)
  {
  }

  /** Looking up a path apart from the set path sees the old value. */
  lemma {:induction false} LookupSetPathAside(t: JValue, p: seq<string>, v: JValue, q: seq<string>)
    requires |p| >= 1 && Apart(p, q)
    ensures Lookup(SetPath(t, p, v), q) == Lookup(t, q)
    decreases |p|
  {
    var ms := if t.JObj? then t.members else [];
    assert q != [];
    if p[0] == q[0] {
      assert |p| >= 2 && |q| >= 2;
      var child := match Get(ms, p[0]) case Some(c) => c case None => JObj([]);
      assert Apart(p[1..], q[1..]);
      LookupSetPathAside(child, p[1..], v, q[1..]);
    }
  }

  /**
   * Setting, above path `q`, an object without `q`'s next step leaves what
   * `q` finds unchanged: the object is merged over what is there.
   */
  lemma SetPathAbove(t: JValue, p: seq<string>, v: JValue, q: seq<string>)
    requires |p| >= 1 && IsStrictPrefix(p, q)
    requires v.JObj? && Get(v.members, q[|p|]).None?
    ensures Lookup(SetPath(t, p, v), q) == Lookup(t, q)
  {
    if ArrayAbove(t, p) {
      SetPathThroughArray(t, p, v);
      return;
    }
    var rest := q[|p|..];
    LookupSetPathBelow(t, p, v, q);
    assert q == p + rest;
    LookupConcat(t, p, rest);
    var layered := Layer(Lookup(t, p), v);
    assert Get(layered.members, rest[0]) ==
             if Lookup(t, p).Some? && Lookup(t, p).value.JObj? then Get(Lookup(t, p).value.members, rest[0]) else None;
  }

  /** The object expand-hash builds: each flat property set at the path its name spells. */
  function Expand(ms: seq<Member>): (r: JValue)
    ensures r.JObj?
    decreases |ms|
  {
    if ms == [] then JObj([])
    else
      var last := ms[|ms| - 1];
      SetPath(Expand(ms[..|ms| - 1]), Split(last.key, '.'), last.value)
  }

  /**
   * Setting property `m` leaves what path `q` finds as it was: its path is
   * apart from `q`, or it is an object above `q` without `q`'s next step.
   */
  predicate Leaves(m: Member, q: seq<string>) {
    var p := Split(m.key, '.');
    Apart(p, q) || (IsStrictPrefix(p, q) && m.value.JObj? && Get(m.value.members, q[|p|]).None?)
  }

  /**
   * Setting property `m` adds nothing at path `q`: it leaves `q` as it was,
   * or it puts above `q` a value that is neither an object nor an array,
   * which clears it.
   */
  predicate Clears(m: Member, q: seq<string>) {
    Leaves(m, q) || (IsStrictPrefix(Split(m.key, '.'), q) && !m.value.JObj? && !m.value.JArr?)
  }

  /**
   * At and below the last property's path, when no array lies on the way,
   * the expansion reads from its value layered over what was there.
   */
  lemma ExpandLast(ms: seq<Member>, r: seq<string>)
    requires ms != [] && IsPrefix(Split(ms[|ms| - 1].key, '.'), r)
    requires !ArrayAbove(Expand(ms[..|ms| - 1]), Split(ms[|ms| - 1].key, '.'))
    ensures var p := Split(ms[|ms| - 1].key, '.');
      Lookup(Expand(ms), r) == Lookup(Layer(Lookup(Expand(ms[..|ms| - 1]), p), ms[|ms| - 1].value), r[|p|..])
  {
    var p := Split(ms[|ms| - 1].key, '.');
    LookupSetPathBelow(Expand(ms[..|ms| - 1]), p, ms[|ms| - 1].value, r);
  }

  /** Expanding a last property that leaves path `q` does not change what `q` finds. */
  lemma ExpandLeaves(ms: seq<Member>, q: seq<string>)
    requires ms != [] && Leaves(ms[|ms| - 1], q)
    ensures Lookup(Expand(ms), q) == Lookup(Expand(ms[..|ms| - 1]), q)
  {
    var m := ms[|ms| - 1];
    var p := Split(m.key, '.');
    if Apart(p, q) {
      LookupSetPathAside(Expand(ms[..|ms| - 1]), p, m.value, q);
    } else {
      SetPathAbove(Expand(ms[..|ms| - 1]), p, m.value, q);
    }
  }

  /** Expanding a last property that clears path `q` leaves nothing at `q` that was not there. */
  lemma ExpandClears(ms: seq<Member>, q: seq<string>)
    requires ms != [] && Clears(ms[|ms| - 1], q)
    ensures Lookup(Expand(ms[..|ms| - 1]), q).None? ==> Lookup(Expand(ms), q).None?
  {
    var m := ms[|ms| - 1];
    var p := Split(m.key, '.');
    if Leaves(m, q) {
      ExpandLeaves(ms, q);
    } else if ArrayAbove(Expand(ms[..|ms| - 1]), p) {
      SetPathThroughArray(Expand(ms[..|ms| - 1]), p, m.value);
    } else {
      ExpandLast(ms, q);
      assert q[|p|..] != [];
    }
  }

  /** A path that every property clears holds nothing after expansion. */
  lemma {:induction false} ExpandNone(ms: seq<Member>, q: seq<string>)
    requires |q| >= 1
    requires forall j :: 0 <= j < |ms| ==> Clears(ms[j], q)
    ensures Lookup(Expand(ms), q).None?
    decreases |ms|
  {
    if ms != [] {
      var prior := ms[..|ms| - 1];
      forall j | 0 <= j < |prior| ensures Clears(prior[j], q) {
        assert prior[j] == ms[j];
      }
      ExpandNone(prior, q);
      ExpandClears(ms, q);
    }
  }

  /** `o` finds an array. */
  predicate IsArray(o: Option<JValue>) {
    o.Some? && o.value.JArr?
  }

  /**
   * Setting value `v` at path `p` puts no array at path `q` that was not
   * there: `p` is apart from `q` or runs through it, `p` is `q` and `v` is no
   * array, or `v` sits above `q` without reaching it.
   */
  predicate NoArrayAt(p: seq<string>, v: JValue, q: seq<string>) {
    || Apart(p, q)
    || IsStrictPrefix(q, p)
    || (p == q && !v.JArr?)
    || (IsStrictPrefix(p, q) && (!v.JObj? || Get(v.members, q[|p|]).None?))
  }

  /** Setting property `m` puts no array on the way to path `q`. */
  predicate NoArrayOnWay(m: Member, q: seq<string>) {
    forall k :: 1 <= k < |q| ==> NoArrayAt(Split(m.key, '.'), m.value, q[..k])
  }

  /** A path that `p` runs through finds what it found before, or an object. */
  lemma {:induction false} SetPathOnWay(t: JValue, p: seq<string>, v: JValue, q: seq<string>)
    requires 1 <= |q| < |p| && IsPrefix(q, p)
    ensures Lookup(SetPath(t, p, v), q) == Lookup(t, q) || (Lookup(SetPath(t, p, v), q).Some? && Lookup(SetPath(t, p, v), q).value.JObj?)
    decreases |q|
  {
    var ms := if t.JObj? then t.members else [];
    var child := match Get(ms, p[0]) case Some(c) => c case None => JObj([]);
    if !child.JArr? {
      LookupThroughSet(ms, p[0], SetPath(child, p[1..], v), q);
      if |q| >= 2 {
        SetPathOnWay(child, p[1..], v, q[1..]);
        LookupChild(t, q);
      }
    }
  }

  /** Setting a value puts no array at `q` that `NoArrayAt` rules out. */
  lemma SetPathNoNewArray(t: JValue, p: seq<string>, v: JValue, q: seq<string>)
    requires |p| >= 1 && |q| >= 1 && NoArrayAt(p, v, q)
    ensures IsArray(Lookup(SetPath(t, p, v), q)) ==> IsArray(Lookup(t, q))
  {
    if ArrayAbove(t, p) {
      SetPathThroughArray(t, p, v);
    } else if Apart(p, q) {
      LookupSetPathAside(t, p, v, q);
    } else if IsStrictPrefix(q, p) {
      SetPathOnWay(t, p, v, q);
    } else if p == q {
      LookupSetPathBelow(t, p, v, q);
      assert q[|p|..] == [];
    } else if v.JObj? && Get(v.members, q[|p|]).None? {
      SetPathAbove(t, p, v, q);
    } else {
      LookupSetPathBelow(t, p, v, q);
      assert q[|p|..] != [];
    }
  }

  /** A path at which no property puts an array finds none after expansion. */
  lemma {:induction false} ExpandNoArray(ms: seq<Member>, q: seq<string>)
    requires |q| >= 1
    requires forall j :: 0 <= j < |ms| ==> NoArrayAt(Split(ms[j].key, '.'), ms[j].value, q)
    ensures !IsArray(Lookup(Expand(ms), q))
    decreases |ms|
  {
    if ms != [] {
      var prior := ms[..|ms| - 1];
      forall j | 0 <= j < |prior| ensures NoArrayAt(Split(prior[j].key, '.'), prior[j].value, q) {
        assert prior[j] == ms[j];
      }
      ExpandNoArray(prior, q);
      SetPathNoNewArray(Expand(prior), Split(ms[|ms| - 1].key, '.'), ms[|ms| - 1].value, q);
    }
  }

  /** No array at any proper prefix of `p` means no array on the way. */
  lemma {:induction false} NoArrayAbove(t: JValue, p: seq<string>)
    requires forall k :: 1 <= k < |p| ==> !IsArray(Lookup(t, p[..k]))
    ensures !ArrayAbove(t, p)
    decreases |p|
  {
    if |p| >= 2 && t.JObj? {
      assert p[..1][1..] == [];
      assert !IsArray(Lookup(t, p[..1]));
      match Get(t.members, p[0])
      case Some(c) =>
        forall k | 1 <= k < |p| - 1 ensures !IsArray(Lookup(c, p[1..][..k])) {
          assert p[..k + 1][1..] == p[1..][..k];
          assert !IsArray(Lookup(t, p[..k + 1]));
        }
        NoArrayAbove(c, p[1..]);
      case None =>
    }
  }

  /** When no property puts an array on the way to `q`, expansion leaves none there. */
  lemma ExpandNoArrayAbove(ms: seq<Member>, q: seq<string>)
    requires forall j :: 0 <= j < |ms| ==> NoArrayOnWay(ms[j], q)
    ensures !ArrayAbove(Expand(ms), q)
  {
    forall k | 1 <= k < |q| ensures !IsArray(Lookup(Expand(ms), q[..k])) {
      forall j | 0 <= j < |ms| ensures NoArrayAt(Split(ms[j].key, '.'), ms[j].value, q[..k]) {
        assert NoArrayOnWay(ms[j], q);
      }
      ExpandNoArray(ms, q[..k]);
    }
    NoArrayAbove(Expand(ms), q);
  }

  /** A property that clears `q` puts no array on the way to it. */
  lemma ClearsNoArray(m: Member, q: seq<string>)
    requires Clears(m, q)
    ensures NoArrayOnWay(m, q)
  {
    var p := Split(m.key, '.');
    forall k | 1 <= k < |q| ensures NoArrayAt(p, m.value, q[..k]) {
      var q' := q[..k];
      if Apart(p, q) {
        assert !IsPrefix(p, q');
      } else if |p| < k {
        assert q'[..|p|] == q[..|p|];
        assert q'[|p|] == q[|p|];
      } else if |p| > k {
        assert p[..k] == q';
      } else {
        assert p == q';
      }
    }
  }

  /**
   * Expansion finds a property's value at the path its name spells, whatever
   * the order of the names, when every earlier property clears that path and
   * every later one leaves it; in particular no other name spells that path
   * or one below it.
   */
  lemma {:induction false} ExpandFinds(ms: seq<Member>, i: nat)
    requires i < |ms|
    requires forall j :: 0 <= j < i ==> Clears(ms[j], Split(ms[i].key, '.'))
    requires forall j :: i < j < |ms| ==> Leaves(ms[j], Split(ms[i].key, '.'))
    ensures Lookup(Expand(ms), Split(ms[i].key, '.')) == Some(ms[i].value)
    decreases |ms|
  {
    var n := |ms|;
    var q := Split(ms[i].key, '.');
    var prior := ms[..n - 1];
    forall j | 0 <= j < i && j < |prior| ensures Clears(prior[j], q) {
      assert prior[j] == ms[j];
    }
    if i == n - 1 {
      ExpandNone(prior, q);
      forall j | 0 <= j < |prior| ensures NoArrayOnWay(prior[j], q) {
        ClearsNoArray(prior[j], q);
      }
      ExpandNoArrayAbove(prior, q);
      ExpandLast(ms, q);
      assert q[|q|..] == [];
    } else {
      assert prior[i] == ms[i];
      forall j | i < j < |prior| ensures Leaves(prior[j], q) {
        assert prior[j] == ms[j];
      }
      ExpandFinds(prior, i);
      ExpandLeaves(ms, q);
    }
  }

  lemma LookupField(v: JValue, f: string, c: JValue)
    requires v.JObj? && Get(v.members, f) == Some(c)
    ensures Lookup(v, [f]) == Some(c)
  {
    assert [f][1..] == [];
  }

  /**
   * A record keeps its field `f` after expansion, whatever the order of the
   * names, when no earlier property puts an array on the way to the record
   * and every later property leaves the field's path: what earlier
   * properties put at or below the record, the record overlays.
   */
  lemma {:induction false} ExpandKeepsFields(ms: seq<Member>, i: nat, f: string, c: JValue)
    requires i < |ms|
    requires ms[i].value.JObj? && UniqueKeys(ms[i].value.members) && Get(ms[i].value.members, f) == Some(c)
    requires forall j :: 0 <= j < i ==> NoArrayOnWay(ms[j], Split(ms[i].key, '.'))
    requires forall j :: i < j < |ms| ==> Leaves(ms[j], Split(ms[i].key, '.') + [f])
    ensures Lookup(Expand(ms), Split(ms[i].key, '.') + [f]) == Some(c)
    decreases |ms|
  {
    var n := |ms|;
    var q := Split(ms[i].key, '.');
    var r := q + [f];
    var prior := ms[..n - 1];
    forall j | 0 <= j < i && j < |prior| ensures NoArrayOnWay(prior[j], q) {
      assert prior[j] == ms[j];
    }
    if i == n - 1 {
      ExpandNoArrayAbove(prior, q);
      ExpandLast(ms, r);
      assert r[|q|..] == [f];
      LookupField(Layer(Lookup(Expand(ms[..n - 1]), q), ms[i].value), f, c);
    } else {
      assert prior[i] == ms[i];
      forall j | i < j < |prior| ensures Leaves(prior[j], r) {
        assert prior[j] == ms[j];
      }
      ExpandKeepsFields(prior, i, f, c);
      ExpandLeaves(ms, r);
    }
  }

  /** A proper path prefix spells a name that is a proper prefix, hence smaller. */
  lemma PrefixPathLess(p: seq<string>, q: seq<string>)
    requires |p| >= 1
    ensures IsStrictPrefix(p, q) ==> LexLess(Join(p, '.'), Join(q, '.'))
  {
    if IsStrictPrefix(p, q) {
      PrefixPathLessStep(p, q);
    }
  }

  lemma PrefixPathLessStep(p: seq<string>, q: seq<string>)
    requires |p| >= 1 && IsStrictPrefix(p, q)
    ensures LexLess(Join(p, '.'), Join(q, '.'))
  {
    assert q == p + q[|p|..];
    JoinAppend(p, q[|p|..], '.');
    var a := Join(p, '.');
    assert Join(q, '.')[..|a|] == a;
    PrefixLexLess(a, Join(q, '.'));
  }

  /** Sorted unique names, restated as a strict order. */
  lemma StrictOrder(ms: seq<Member>, i: nat, j: nat)
    requires SortedByKey(ms) && UniqueKeys(ms) && i < j < |ms|
    ensures LexLess(ms[i].key, ms[j].key)
  {
    LexLessTotal(ms[i].key, ms[j].key);
  }

  /** A later name of a sorted object never spells a prefix of an earlier one's path. */
  lemma LaterNotPrefix(ms: seq<Member>, i: nat, j: nat)
    requires SortedByKey(ms) && UniqueKeys(ms) && i < j < |ms|
    ensures !IsPrefix(Split(ms[j].key, '.'), Split(ms[i].key, '.'))
  {
    var ki, kj := ms[i].key, ms[j].key;
    var p, q := Split(kj, '.'), Split(ki, '.');
    StrictOrder(ms, i, j);
    LexLessIrreflexive(ki);
    LexLessAsymmetric(ki, kj);
    PrefixPathLess(p, q);
    assert p == q ==> kj == ki;
    assert IsPrefix(p, q) && p != q ==> IsStrictPrefix(p, q);
  }

  /** A path that is no prefix of `q`, and that `q + [f]` is no prefix of, is apart from `q + [f]`. */
  lemma ExtendedApart(p: seq<string>, q: seq<string>, f: string)
    requires !IsPrefix(p, q) && !IsPrefix(q + [f], p)
    ensures Apart(p, q + [f])
  {
    var r := q + [f];
    if |p| <= |q| {
      assert q[..|p|] == r[..|p|];
    }
  }

  // ---------------------------------------------------------------------
  // Sorting every level of the tree
  // ---------------------------------------------------------------------

  /** Every object in `v`, at every depth, has its property names in ascending order. */
  predicate DeepSorted(v: JValue) {
    match v
    case JObj(ms) => SortedByKey(ms) && forall i :: 0 <= i < |ms| ==> DeepSorted(ms[i].value)
    case _ => true
  }

  /** `v` with the properties of every object, at every depth, sorted by name. */
  function DeepSort(v: JValue): JValue
    decreases v
  {
    match v
    case JObj(ms) =>
      JObj(SortByKey(seq(|ms|, i requires 0 <= i < |ms| => Member(ms[i].key, DeepSort(ms[i].value)))))
    case _ => v
  }

  /** Every member of a deep-sorted object is some original member with its value deep-sorted. */
  lemma DeepSortMember(ms: seq<Member>, y: Member)
    requires y in DeepSort(JObj(ms)).members
    ensures exists j :: 0 <= j < |ms| && y == Member(ms[j].key, DeepSort(ms[j].value))
  {
    var mapped := seq(|ms|, i requires 0 <= i < |ms| => Member(ms[i].key, DeepSort(ms[i].value)));
    assert y in multiset(SortByKey(mapped));
    var j :| 0 <= j < |mapped| && mapped[j] == y;
  }

  /** Deep sorting sorts every level. */
  lemma {:induction false} DeepSortSorts(v: JValue)
    ensures DeepSorted(DeepSort(v))
    decreases v
  {
    if v.JObj? {
      var ms := v.members;
      var r := DeepSort(v).members;
      forall i | 0 <= i < |r| ensures DeepSorted(r[i].value) {
        DeepSortMember(ms, r[i]);
        var j :| 0 <= j < |ms| && r[i] == Member(ms[j].key, DeepSort(ms[j].value));
        DeepSortSorts(ms[j].value);
      }
    }
  }

  /** Deep sorting a tree twice is the same as once. */
  lemma {:induction false} DeepSortIdempotent(v: JValue)
    ensures DeepSort(DeepSort(v)) == DeepSort(v)
    decreases v
  {
    if v.JObj? {
      var ms := v.members;
      var r := DeepSort(v).members;
      var again := seq(|r|, i requires 0 <= i < |r| => Member(r[i].key, DeepSort(r[i].value)));
      forall i | 0 <= i < |r| ensures again[i] == r[i] {
        DeepSortMember(ms, r[i]);
        var j :| 0 <= j < |ms| && r[i] == Member(ms[j].key, DeepSort(ms[j].value));
        DeepSortIdempotent(ms[j].value);
      }
      assert again == r;
      SortSortedIsIdentity(r);
    }
  }

  /** Deep sorting only reorders: every path finds the deep-sorted version of what it found before. */
  lemma {:induction false} LookupDeepSort(t: JValue, path: seq<string>)
    ensures Lookup(DeepSort(t), path) ==
              match Lookup(t, path) case Some(x) => Some(DeepSort(x)) case None => None
    decreases |path|
  {
    if path != [] && t.JObj? {
      var ms := t.members;
      var mapped := seq(|ms|, i requires 0 <= i < |ms| => Member(ms[i].key, DeepSort(ms[i].value)));
      GetMapped(ms, mapped, path[0]);
      SortGet(mapped, path[0]);
      assert DeepSort(t).members == SortByKey(mapped);
      match Get(ms, path[0])
      case Some(c) => LookupDeepSort(c, path[1..]);
      case None =>
    }
  }

  lemma {:induction false} GetMapped(ms: seq<Member>, mapped: seq<Member>, k: string)
    requires |mapped| == |ms|
    requires forall i :: 0 <= i < |ms| ==> mapped[i] == Member(ms[i].key, DeepSort(ms[i].value))
    ensures Get(mapped, k) == match Get(ms, k) case Some(x) => Some(DeepSort(x)) case None => None
  {
    if ms != [] {
      GetMapped(ms[1..], mapped[1..], k);
    }
  }

  // ---------------------------------------------------------------------
  // The consolidated tree
  // ---------------------------------------------------------------------

  /** The tree as the consolidation code builds it: the flat names sorted, then expanded. */
  function ExpandedSortedFlat(entries: seq<Entry>, flattenIndex: bool): (t: JValue)
    ensures t.JObj?
  {
    Expand(SortByKey(Flat(entries, flattenIndex)))
  }

  /**
   * The corrected consolidation: the tree as built, with every level sorted,
   * as the plugin promises. Nothing else in the model uses it.
   */
  function Tree(entries: seq<Entry>, flattenIndex: bool): (t: JValue)
    ensures DeepSorted(t)
  {
    DeepSortSorts(ExpandedSortedFlat(entries, flattenIndex));
    DeepSort(ExpandedSortedFlat(entries, flattenIndex))
  }

  /** The corrected tree holds at every path the deep-sorted form of what the tree as built holds there. */
  lemma TreeKeepsPaths(entries: seq<Entry>, flattenIndex: bool, path: seq<string>)
    ensures Lookup(Tree(entries, flattenIndex), path) ==
              match Lookup(ExpandedSortedFlat(entries, flattenIndex), path)
              case Some(x) => Some(DeepSort(x))
              case None => None
  {
    LookupDeepSort(ExpandedSortedFlat(entries, flattenIndex), path);
  }

  /** Path keys and dotted keys agree on equality and on nesting. */
  lemma DottedKeyEquality(a: string, b: string, flattenIndex: bool)
    ensures DottedKey(a, flattenIndex) == DottedKey(b, flattenIndex) <==> PathKey(a, flattenIndex) == PathKey(b, flattenIndex)
  {
    DottedKeySplits(a, flattenIndex);
    DottedKeySplits(b, flattenIndex);
  }

  /** The flat object's sorted form holds the document's record under its dotted key. */
  lemma SortedHolds(entries: seq<Entry>, flattenIndex: bool, i: nat) returns (x: nat)
    requires i < |entries|
    requires forall j :: i < j < |entries| ==>
               PathKey(entries[j].relative, flattenIndex) != PathKey(entries[i].relative, flattenIndex)
    ensures var sorted := SortByKey(Flat(entries, flattenIndex));
      && x < |sorted| && sorted[x] == Member(DottedKey(entries[i].relative, flattenIndex), entries[i].value)
      && SortedByKey(sorted) && UniqueKeys(sorted)
  {
    var flat := Flat(entries, flattenIndex);
    var sorted := SortByKey(flat);
    DistinctDotted(entries, flattenIndex, i);
    LastWriteWins(entries, flattenIndex, i);
    SortKeepsUnique(flat);
    var k := DottedKey(entries[i].relative, flattenIndex);
    SortGet(flat, k);
    assert Member(k, entries[i].value) in sorted;
    x :| 0 <= x < |sorted| && sorted[x] == Member(k, entries[i].value);
  }

  /** Distinct path keys give distinct dotted keys. */
  lemma DistinctDotted(entries: seq<Entry>, flattenIndex: bool, i: nat)
    requires i < |entries|
    requires forall j :: i < j < |entries| ==>
               PathKey(entries[j].relative, flattenIndex) != PathKey(entries[i].relative, flattenIndex)
    ensures forall j :: i < j < |entries| ==>
              DottedKey(entries[j].relative, flattenIndex) != DottedKey(entries[i].relative, flattenIndex)
  {
    forall j | i < j < |entries|
      ensures DottedKey(entries[j].relative, flattenIndex) != DottedKey(entries[i].relative, flattenIndex)
    {
      DottedKeyEquality(entries[j].relative, entries[i].relative, flattenIndex);
    }
  }

  /** Every value of the flat object is the record of a document stored under that document's dotted key. */
  lemma {:induction false} FlatValues(entries: seq<Entry>, flattenIndex: bool, k: string) returns (j: nat)
    requires Get(Flat(entries, flattenIndex), k).Some?
    ensures j < |entries| && DottedKey(entries[j].relative, flattenIndex) == k
    ensures Get(Flat(entries, flattenIndex), k) == Some(entries[j].value)
    decreases |entries|
  {
    var n := |entries|;
    var prefix := entries[..n - 1];
    if k == DottedKey(entries[n - 1].relative, flattenIndex) {
      j := n - 1;
    } else {
      j := FlatValues(prefix, flattenIndex, k);
      assert prefix[j] == entries[j];
    }
  }

  /** A property of the sorted flat object carries the record of a document whose path key its name spells. */
  lemma SortedFrom(entries: seq<Entry>, flattenIndex: bool, y: Member) returns (j: nat)
    requires y in SortByKey(Flat(entries, flattenIndex))
    ensures j < |entries| && y.value == entries[j].value
    ensures Split(y.key, '.') == PathKey(entries[j].relative, flattenIndex)
  {
    var flat := Flat(entries, flattenIndex);
    SortKeepsUnique(flat);
    GetMember(SortByKey(flat), y);
    SortGet(flat, y.key);
    j := FlatValues(entries, flattenIndex, y.key);
    DottedKeySplits(entries[j].relative, flattenIndex);
  }

  /** A record `v` at path `p` above path `q` is neither an array nor an object holding `q`'s next segment. */
  predicate ClearsBelow(p: seq<string>, v: JValue, q: seq<string>) {
    IsStrictPrefix(p, q) ==> !v.JArr? && (v.JObj? ==> Get(v.members, q[|p|]).None?)
  }

  /**
   * A document that is the last with its path key, below whose key no other
   * document lies, and above whose key no record is an array or an object
   * with a field named after the next segment, is found in the tree at its
   * path key.
   */
  lemma RecordInTree(entries: seq<Entry>, flattenIndex: bool, i: nat)
    requires i < |entries|
    requires forall j :: i < j < |entries| ==>
               PathKey(entries[j].relative, flattenIndex) != PathKey(entries[i].relative, flattenIndex)
    requires forall j :: 0 <= j < |entries| ==>
               !IsStrictPrefix(PathKey(entries[i].relative, flattenIndex), PathKey(entries[j].relative, flattenIndex))
    requires forall j :: 0 <= j < |entries| ==>
               ClearsBelow(PathKey(entries[j].relative, flattenIndex), entries[j].value, PathKey(entries[i].relative, flattenIndex))
    ensures Lookup(ExpandedSortedFlat(entries, flattenIndex), PathKey(entries[i].relative, flattenIndex)) == Some(entries[i].value)
  {
    var sorted := SortByKey(Flat(entries, flattenIndex));
    var x := SortedHolds(entries, flattenIndex, i);
    var q := PathKey(entries[i].relative, flattenIndex);
    DottedKeySplits(entries[i].relative, flattenIndex);
    forall y | 0 <= y < x ensures Clears(sorted[y], q) {
      EarlierInSorted(entries, flattenIndex, i, x, y);
    }
    forall y | x < y < |sorted| ensures Leaves(sorted[y], q) {
      LaterInSorted(entries, flattenIndex, i, x, y);
    }
    ExpandFinds(sorted, x);
  }

  /** In the sorted flat object, the names before a record's clear its path. */
  lemma EarlierInSorted(entries: seq<Entry>, flattenIndex: bool, i: nat, x: nat, y: nat)
    requires i < |entries|
    requires forall j :: 0 <= j < |entries| ==>
               ClearsBelow(PathKey(entries[j].relative, flattenIndex), entries[j].value, PathKey(entries[i].relative, flattenIndex))
    requires var sorted := SortByKey(Flat(entries, flattenIndex));
      && y < x < |sorted| && SortedByKey(sorted) && UniqueKeys(sorted)
      && Split(sorted[x].key, '.') == PathKey(entries[i].relative, flattenIndex)
    ensures Clears(SortByKey(Flat(entries, flattenIndex))[y], PathKey(entries[i].relative, flattenIndex))
  {
    var sorted := SortByKey(Flat(entries, flattenIndex));
    var q := PathKey(entries[i].relative, flattenIndex);
    var p := Split(sorted[y].key, '.');
    assert sorted[y] in sorted;
    var j := SortedFrom(entries, flattenIndex, sorted[y]);
    assert ClearsBelow(PathKey(entries[j].relative, flattenIndex), entries[j].value, q);
    assert sorted[y].key != sorted[x].key;
    LaterNotPrefix(sorted, y, x);
    ClearsFromAbove(sorted[y], q);
  }

  /** A property whose path is not below `q` and that clears below itself clears `q`. */
  lemma ClearsFromAbove(m: Member, q: seq<string>)
    requires Split(m.key, '.') != q && !IsPrefix(q, Split(m.key, '.'))
    requires ClearsBelow(Split(m.key, '.'), m.value, q)
    ensures Clears(m, q)
  {
  }

  /** In the sorted flat object, the names after a record's leave its path when none lies below it. */
  lemma LaterInSorted(entries: seq<Entry>, flattenIndex: bool, i: nat, x: nat, y: nat)
    requires i < |entries|
    requires forall j :: 0 <= j < |entries| ==>
               !IsStrictPrefix(PathKey(entries[i].relative, flattenIndex), PathKey(entries[j].relative, flattenIndex))
    requires var sorted := SortByKey(Flat(entries, flattenIndex));
      && x < y < |sorted| && SortedByKey(sorted) && UniqueKeys(sorted)
      && Split(sorted[x].key, '.') == PathKey(entries[i].relative, flattenIndex)
    ensures Leaves(SortByKey(Flat(entries, flattenIndex))[y], PathKey(entries[i].relative, flattenIndex))
  {
    var sorted := SortByKey(Flat(entries, flattenIndex));
    var q := PathKey(entries[i].relative, flattenIndex);
    var p := Split(sorted[y].key, '.');
    assert sorted[y] in sorted;
    var j := SortedFrom(entries, flattenIndex, sorted[y]);
    assert sorted[y].key != sorted[x].key;
    assert p != q;
    LaterNotPrefix(sorted, x, y);
  }

  /**
   * A record at a directory's key keeps its own fields beside the
   * directory's documents: field `f` of document `i` is found at `key + [f]`
   * when no document's key starts with that path and no record above the
   * key is an array or an object holding the next segment.
   */
  lemma FieldBesideChildren(entries: seq<Entry>, flattenIndex: bool, i: nat, f: string, c: JValue)
    requires i < |entries|
    requires forall j :: i < j < |entries| ==>
               PathKey(entries[j].relative, flattenIndex) != PathKey(entries[i].relative, flattenIndex)
    requires entries[i].value.JObj? && UniqueKeys(entries[i].value.members) && Get(entries[i].value.members, f) == Some(c)
    requires forall j :: 0 <= j < |entries| ==>
               !IsPrefix(PathKey(entries[i].relative, flattenIndex) + [f], PathKey(entries[j].relative, flattenIndex))
    requires forall j :: 0 <= j < |entries| ==>
               ClearsBelow(PathKey(entries[j].relative, flattenIndex), entries[j].value, PathKey(entries[i].relative, flattenIndex))
    ensures Lookup(ExpandedSortedFlat(entries, flattenIndex), PathKey(entries[i].relative, flattenIndex) + [f]) == Some(c)
  {
    var sorted := SortByKey(Flat(entries, flattenIndex));
    var x := SortedHolds(entries, flattenIndex, i);
    var q := PathKey(entries[i].relative, flattenIndex);
    DottedKeySplits(entries[i].relative, flattenIndex);
    forall y | 0 <= y < x ensures NoArrayOnWay(sorted[y], q) {
      EarlierInSorted(entries, flattenIndex, i, x, y);
      ClearsNoArray(sorted[y], q);
    }
    forall y | x < y < |sorted| ensures Leaves(sorted[y], q + [f]) {
      assert sorted[y] in sorted;
      var j := SortedFrom(entries, flattenIndex, sorted[y]);
      LaterNotPrefix(sorted, x, y);
      ExtendedApart(Split(sorted[y].key, '.'), q, f);
    }
    ExpandKeepsFields(sorted, x, f, c);
  }

  /**
   * Sorting the flat dotted names does not sort sibling directories: `-` sorts
   * before `.`, so the name `a-b.x` comes before `a.y`, and the expanded tree
   * lists `a-b` before `a` although `a` is the smaller name.
   */
  lemma ExpandedSortedFlatNotSorted()
    ensures var t := ExpandedSortedFlat([Entry("a-b/x.md", JNull), Entry("a/y.md", JNull)], false);
      && t.JObj? && KeysOf(t.members) == ["a-b", "a"] && LexLess("a", "a-b") && !DeepSorted(t)
  {
    var t := ExampleTree();
    PrefixLexLess("a", "a-b");
    TwoMembers(t.members[0], t.members[1]);
  }

  /** An object with two members: its names in order, and unsorted when the second is smaller. */
  lemma TwoMembers(m0: Member, m1: Member)
    ensures KeysOf([m0, m1]) == [m0.key, m1.key]
    ensures LexLess(m1.key, m0.key) ==> !DeepSorted(JObj([m0, m1]))
  {
    var ms := [m0, m1];
    assert ms[1..] == [m1];
    assert [m1][1..] == [];
    assert KeysOf([m1]) == [m1.key];
    assert KeysOf(ms) == [m0.key] + KeysOf([m1]);
    if LexLess(m1.key, m0.key) {
      assert LexLess(ms[1].key, ms[0].key);
      assert !SortedByKey(ms);
      assert !DeepSorted(JObj(ms));
    }
  }

  /** The tree the consolidation code builds for the two example documents. */
  lemma ExampleTree() returns (t: JValue)
    ensures t == ExpandedSortedFlat([Entry("a-b/x.md", JNull), Entry("a/y.md", JNull)], false)
    ensures t == JObj([Member("a-b", JObj([Member("x", JNull)])), Member("a", JObj([Member("y", JNull)]))])
  {
    var flat := ExampleFlat();
    ExampleOrder();
    LexLessAsymmetric("a-b.x", "a.y");
    SortedTwo(flat[0], flat[1]);
    SortSortedIsIdentity(flat);
    t := ExampleExpand(flat);
  }

  lemma ExampleOrder()
    ensures LexLess("a-b.x", "a.y")
  {
    assert LexLess("-b.x", ".y");
  }

  lemma SortedTwo(m0: Member, m1: Member)
    requires !LexLess(m1.key, m0.key)
    ensures SortedByKey([m0, m1])
  {
  }

  lemma ExampleFlat() returns (flat: seq<Member>)
    ensures flat == Flat([Entry("a-b/x.md", JNull), Entry("a/y.md", JNull)], false)
    ensures flat == [Member("a-b.x", JNull), Member("a.y", JNull)]
  {
    ExampleKeys();
    FlatOfTwo(Entry("a-b/x.md", JNull), Entry("a/y.md", JNull), false);
    flat := Flat([Entry("a-b/x.md", JNull), Entry("a/y.md", JNull)], false);
  }

  lemma FlatOfTwo(e0: Entry, e1: Entry, flattenIndex: bool)
    requires DottedKey(e0.relative, flattenIndex) != DottedKey(e1.relative, flattenIndex)
    ensures Flat([e0, e1], flattenIndex) ==
              [Member(DottedKey(e0.relative, flattenIndex), e0.value), Member(DottedKey(e1.relative, flattenIndex), e1.value)]
  {
    FlatSnoc([], e0, flattenIndex);
    assert [] + [e0] == [e0];
    FlatSnoc([e0], e1, flattenIndex);
    assert [e0] + [e1] == [e0, e1];
  }

  lemma FlatSnoc(es: seq<Entry>, e: Entry, flattenIndex: bool)
    ensures Flat(es + [e], flattenIndex) == Set(Flat(es, flattenIndex), DottedKey(e.relative, flattenIndex), e.value)
  {
    assert (es + [e])[..|es|] == es;
  }

  lemma ExpandSnoc(ms: seq<Member>, m: Member)
    ensures Expand(ms + [m]) == SetPath(Expand(ms), Split(m.key, '.'), m.value)
  {
    assert (ms + [m])[..|ms|] == ms;
  }

  lemma ExampleKeys()
    ensures DottedKey("a-b/x.md", false) == "a-b.x"
    ensures DottedKey("a/y.md", false) == "a.y"
  {
    ExampleKeyNested();
    ExampleKeyPlain();
  }

  lemma ExampleKeyNested()
    ensures DottedKey("a-b/x.md", false) == "a-b.x"
  {
    assert "a-b/x.md" == "a-b/x" + ['.'] + "md";
    SplitPair("a-b/x", "md", '.');
    assert "a-b/x" == "a-b" + ['/'] + "x";
    SplitPair("a-b", "x", '/');
    assert PathKey("a-b/x.md", false) == ["a-b", "x"];
    JoinPair("a-b", "x", '.');
  }

  lemma ExampleKeyPlain()
    ensures DottedKey("a/y.md", false) == "a.y"
  {
    assert "a/y.md" == "a/y" + ['.'] + "md";
    SplitPair("a/y", "md", '.');
    assert "a/y" == "a" + ['/'] + "y";
    SplitPair("a", "y", '/');
    assert PathKey("a/y.md", false) == ["a", "y"];
    JoinPair("a", "y", '.');
  }

  lemma JoinPair(a: string, b: string, c: char)
    ensures Join([a, b], c) == a + [c] + b
  {
    assert [a, b][1..] == [b];
  }

  /** A string with one separator splits into the two sides. */
  lemma SplitPair(a: string, b: string, c: char)
    requires c !in a && c !in b
    ensures Split(a + [c] + b, c) == [a, b]
  {
    JoinPair(a, b, c);
    SplitJoin([a, b], c);
  }

  lemma ExampleExpand(flat: seq<Member>) returns (t: JValue)
    requires flat == [Member("a-b.x", JNull), Member("a.y", JNull)]
    ensures t == Expand(flat)
    ensures t == JObj([Member("a-b", JObj([Member("x", JNull)])), Member("a", JObj([Member("y", JNull)]))])
  {
    ExampleSplits();
    ExpandOfTwo(flat[0], flat[1], "a-b", "x", "a", "y");
    t := Expand(flat);
  }

  /** Two dotted names with different first segments expand to two sibling objects. */
  lemma ExpandOfTwo(m0: Member, m1: Member, a: string, b: string, c: string, d: string)
    requires Split(m0.key, '.') == [a, b] && Split(m1.key, '.') == [c, d] && a != c
    ensures Expand([m0, m1]) == JObj([Member(a, JObj([Member(b, m0.value)])), Member(c, JObj([Member(d, m1.value)]))])
  {
    var t1 := ExpandOfOne(m0, a, b);
    ExpandSnoc([m0], m1);
    assert [m0] + [m1] == [m0, m1];
    SetPathFresh(t1.members, c, d, m1.value);
    SetAfterOther(t1.members[0], c, JObj([Member(d, m1.value)]));
  }

  /** One dotted name with two segments expands to an object holding an object. */
  lemma ExpandOfOne(m0: Member, a: string, b: string) returns (t1: JValue)
    requires Split(m0.key, '.') == [a, b]
    ensures t1 == Expand([m0]) && t1 == JObj([Member(a, JObj([Member(b, m0.value)]))])
  {
    ExpandSnoc([], m0);
    assert [] + [m0] == [m0];
    SetPathFresh([], a, b, m0.value);
    t1 := Expand([m0]);
  }

  /** Setting a two-segment path whose first name is absent adds an object holding one property. */
  lemma SetPathFresh(ms: seq<Member>, c: string, d: string, v: JValue)
    requires Get(ms, c).None?
    ensures SetPath(JObj(ms), [c, d], v) == JObj(Set(ms, c, JObj([Member(d, v)])))
  {
    assert [c, d][1..] == [d];
    assert SetPath(JObj([]), [d], v) == JObj([Member(d, v)]);
  }

  lemma SetAfterOther(m: Member, c: string, v: JValue)
    requires m.key != c
    ensures Set([m], c, v) == [m, Member(c, v)]
  {
    assert [m][1..] == [];
  }

  lemma ExampleSplits()
    ensures Split("a-b.x", '.') == ["a-b", "x"] && Split("a.y", '.') == ["a", "y"]
  {
    assert "a-b.x" == "a-b" + ['.'] + "x";
    SplitPair("a-b", "x", '.');
    assert "a.y" == "a" + ['.'] + "y";
    SplitPair("a", "y", '.');
  }

  /** The corrected tree lists the same two directories in ascending order. */
  lemma TreeSortsSiblings()
    ensures var t := Tree([Entry("a-b/x.md", JNull), Entry("a/y.md", JNull)], false);
      t.JObj? && KeysOf(t.members) == ["a", "a-b"]
  {
    var t0 := ExampleTree();
    PrefixLexLess("a", "a-b");
    var t := DeepSortTwo(t0.members[0], t0.members[1]);
    TwoMembers(t.members[0], t.members[1]);
  }

  /** Deep sorting an object whose two members are out of order swaps them. */
  lemma DeepSortTwo(m0: Member, m1: Member) returns (t: JValue)
    requires LexLess(m1.key, m0.key)
    ensures t == DeepSort(JObj([m0, m1]))
    ensures t == JObj([Member(m1.key, DeepSort(m1.value)), Member(m0.key, DeepSort(m0.value))])
  {
    var ms := [m0, m1];
    var n0, n1 := Member(m0.key, DeepSort(m0.value)), Member(m1.key, DeepSort(m1.value));
    var mapped := seq(|ms|, i requires 0 <= i < |ms| => Member(ms[i].key, DeepSort(ms[i].value)));
    assert mapped == [n0, n1];
    SortTwo(n0, n1);
    t := DeepSort(JObj(ms));
  }

  /** Sorting two members that are out of order swaps them. */
  lemma SortTwo(n0: Member, n1: Member)
    requires LexLess(n1.key, n0.key)
    ensures SortByKey([n0, n1]) == [n1, n0]
  {
    var ms := [n0, n1];
    assert ms[1..] == [n1];
    assert SortByKey([n1]) == [n1] by {
      assert [n1][1..] == [];
    }
    LexLessAsymmetric(n1.key, n0.key);
    assert [n1][1..] == [];
    assert InsertByKey(n0, [n1]) == [n1] + InsertByKey(n0, []);
  }

  /** The consolidated file's path: the configured name, else `content.json`, at the root. */
  function OutputPath(name: Option<string>): (path: string)
    ensures name.Some? && name.value != "" ==> path == "/" + name.value
    ensures name.None? || name.value == "" ==> path == "/content.json"
  {
    "/" + if name.Some? && name.value != "" then name.value else "content.json"
  }
}

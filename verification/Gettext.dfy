/**
 The global state of the message lookup: the list of domain bindings
 (bindtextdom.c), the default domain (textdomain.c) and the cache of known
 translations (dcigettext.c), in an environment that does not change.
 */
module Gettext {
  import opened Options
  import opened CStrings

  // ---------------------------------------------------------------- bindings

  /** struct binding; codeset None is a null pointer. */
  datatype Binding = Binding(domainname: Text, dirname: Text, codeset: Option<Text>)

  ghost predicate Sorted(bs: seq<Binding>)
  {
    forall i, j :: 0 <= i < j < |bs| ==> Less(bs[i].domainname, bs[j].domainname)
  }

  /** The binding of a domain, wherever it stands. */
  function Bound(bs: seq<Binding>, name: Text): (r: Option<Binding>)
    ensures r.Some? ==> r.value in bs && r.value.domainname == name
  {
    if bs == [] then None else if bs[0].domainname == name then Some(bs[0]) else Bound(bs[1..], name)
  }

  function DirOf(bs: seq<Binding>, name: Text, default: Text): Text
  {
    if Bound(bs, name).Some? then Bound(bs, name).value.dirname else default
  }

  function CodesetOf(bs: seq<Binding>, name: Text): Option<Text>
  {
    if Bound(bs, name).Some? then Bound(bs, name).value.codeset else None
  }

  lemma {:induction false} BoundSplit(front: seq<Binding>, back: seq<Binding>, name: Text)
    ensures Bound(front + back, name) == if Bound(front, name).Some? then Bound(front, name) else Bound(back, name)
  {
    if front == [] {
      assert front + back == back;
    } else {
      assert (front + back)[1..] == front[1..] + back;
      BoundSplit(front[1..], back, name);
    }
  }

  lemma {:induction false} BoundNone(bs: seq<Binding>, name: Text)
    requires forall i :: 0 <= i < |bs| ==> bs[i].domainname != name
    ensures Bound(bs, name).None?
  {
    if bs != [] {
      BoundNone(bs[1..], name);
    }
  }

  lemma BoundAt(bs: seq<Binding>, name: Text, i: nat)
    requires Sorted(bs) && i < |bs| && bs[i].domainname == name
    ensures Bound(bs, name) == Some(bs[i])
  {
    forall j | 0 <= j < i ensures bs[..i][j].domainname != name {
      assert Less(bs[j].domainname, bs[i].domainname);
      CompareLaws(name, name);
    }
    BoundNone(bs[..i], name);
    assert bs == bs[..i] + bs[i..];
    BoundSplit(bs[..i], bs[i..], name);
  }

  /** Where the search of the sorted list stops: all names before are smaller, and the
      name stands there or nowhere. */
  ghost predicate Place(bs: seq<Binding>, name: Text, i: nat)
  {
    && i <= |bs|
    && (forall j :: 0 <= j < i ==> Less(bs[j].domainname, name))
    && (i < |bs| && bs[i].domainname != name ==> Less(name, bs[i].domainname))
  }

  /** The early exit of the search is sound. */
  lemma PlaceBound(bs: seq<Binding>, name: Text, i: nat)
    requires Sorted(bs) && Place(bs, name, i)
    ensures Bound(bs, name) == if i < |bs| && bs[i].domainname == name then Some(bs[i]) else None
  {
    if i < |bs| && bs[i].domainname == name {
      BoundAt(bs, name, i);
    } else {
      forall j | 0 <= j < |bs| ensures bs[j].domainname != name {
        CompareLaws(name, name);
        if i < j {
          LessTrans(name, bs[i].domainname, bs[j].domainname);
        }
      }
      BoundNone(bs, name);
    }
  }

  /** The search for a binding, in bindtextdomain and in every lookup. */
  method FindBinding(bs: seq<Binding>, name: Text) returns (at: Option<nat>, ghost place: nat)
    requires Sorted(bs)
    ensures Place(bs, name, place) && at == if place < |bs| && bs[place].domainname == name then Some(place) else None
    ensures Bound(bs, name) == if at.Some? then Some(bs[at.value]) else None
  {
    var i := 0;
    while i < |bs|
      invariant i <= |bs| && forall j :: 0 <= j < i ==> Less(bs[j].domainname, name)
    {
      var compare := Compare(name, bs[i].domainname);
      CompareLaws(name, bs[i].domainname);
      if compare == 0 {
        PlaceBound(bs, name, i);
        return Some(i), i;
      }
      if compare < 0 {
        break;
      }
      i := i + 1;
    }
    PlaceBound(bs, name, i);
    return None, i;
  }

  /** The list with a binding in its place, replaced or inserted. */
  function Put(bs: seq<Binding>, b: Binding): seq<Binding>
  {
    if bs == [] then [b]
    else if bs[0].domainname == b.domainname then [b] + bs[1..]
    else if Less(b.domainname, bs[0].domainname) then [b] + bs
    else [bs[0]] + Put(bs[1..], b)
  }

  lemma {:induction false} PutIs(bs: seq<Binding>, b: Binding, i: nat)
    requires Place(bs, b.domainname, i)
    ensures Put(bs, b) == bs[..i] + [b] + bs[if i < |bs| && bs[i].domainname == b.domainname then i + 1 else i..]
  {
    if bs != [] && i > 0 {
      CompareLaws(bs[0].domainname, b.domainname);
      PutIs(bs[1..], b, i - 1);
      assert bs[..i] == [bs[0]] + bs[1..][..i - 1];
    }
  }

  /** A binding put between two parts of a list, in place of one for the same domain
      or of none, is the one that is found. */
  lemma PutBetween(front: seq<Binding>, replaced: seq<Binding>, b: Binding, back: seq<Binding>, name: Text)
    requires |replaced| <= 1 && (replaced != [] ==> replaced[0].domainname == b.domainname)
    requires name == b.domainname ==> Bound(front, name).None?
    ensures Bound(front + ([b] + back), name)
      == if name == b.domainname then Some(b) else Bound(front + (replaced + back), name)
  {
    BoundOne(b, name);
    if replaced != [] {
      assert replaced == [replaced[0]];
      BoundOne(replaced[0], name);
    } else {
      BoundNone([], name);
    }
    hide Bound;
    BoundSplit(front, [b] + back, name);
    BoundSplit([b], back, name);
    BoundSplit(front, replaced + back, name);
    BoundSplit(replaced, back, name);
  }

  lemma BoundOne(b: Binding, name: Text)
    ensures Bound([b], name) == if b.domainname == name then Some(b) else None
  {
  }

  /** The list with a binding replaced or inserted at the place of its name. */
  lemma PutBinding(bs: seq<Binding>, b: Binding, i: nat, name: Text)
    requires Sorted(bs) && Place(bs, b.domainname, i)
    ensures Bound(Put(bs, b), name) == if name == b.domainname then Some(b) else Bound(bs, name)
  {
    var k := if i < |bs| && bs[i].domainname == b.domainname then i + 1 else i;
    PutIs(bs, b, i);
    NotBefore(bs, b.domainname, i);
    assert i <= |bs|;
    hide *;
    Parts(bs, i, k, b);
    if name == b.domainname {
      BoundNone(bs[..i], name);
    }
    PutBetween(bs[..i], bs[i..k], b, bs[k..], name);
  }

  lemma Parts<X>(s: seq<X>, i: nat, k: nat, x: X)
    requires i <= k <= |s|
    ensures s[..i] + [x] + s[k..] == s[..i] + ([x] + s[k..]) && s == s[..i] + (s[i..k] + s[k..])
  {
  }

  lemma NotBefore(bs: seq<Binding>, name: Text, i: nat)
    requires Place(bs, name, i)
    ensures forall j :: 0 <= j < i ==> bs[j].domainname != name
  {
    CompareLaws(name, name);
  }

  lemma PutSorted(bs: seq<Binding>, b: Binding, i: nat)
    requires Sorted(bs) && Place(bs, b.domainname, i)
    ensures Sorted(bs[..i] + [b] + bs[if i < |bs| && bs[i].domainname == b.domainname then i + 1 else i..])
  {
    hide Less;
    var k := if i < |bs| && bs[i].domainname == b.domainname then i + 1 else i;
    forall j | k <= j < |bs| ensures Less(b.domainname, bs[j].domainname) {
      if i < j && bs[i].domainname != b.domainname {
        LessTrans(b.domainname, bs[i].domainname, bs[j].domainname);
      }
    }
  }

  /** What a pointer argument asks for: nothing (a null pointer), the current value, or
      a new value. */
  datatype Request = Ignore | Query | Set(value: Text)

  /** The binding of a name after set_binding_values. */
  function NewBinding(bs: seq<Binding>, name: Text, dir: Request, codeset: Request, default: Text): Binding
  {
    Binding(name,
            if dir.Set? then dir.value else DirOf(bs, name, default),
            if codeset.Set? then Some(codeset.value) else CodesetOf(bs, name))
  }

  /** Two lists bind every name alike, except one name that is bound to b. */
  ghost predicate BindsAlso(bs: seq<Binding>, bs': seq<Binding>, b: Binding)
  {
    forall name: Text :: Bound(bs', name) == if name == b.domainname then Some(b) else Bound(bs, name)
  }

  /** The list stays sorted, and no other domain's binding changes. */
  lemma PutBinds(bs: seq<Binding>, b: Binding, i: nat)
    requires Sorted(bs) && Place(bs, b.domainname, i)
    ensures Sorted(Put(bs, b)) && BindsAlso(bs, Put(bs, b), b)
  {
    hide Bound, Less, Put;
    PutIs(bs, b, i);
    PutSorted(bs, b, i);
    forall name: Text ensures Bound(Put(bs, b), name) == if name == b.domainname then Some(b) else Bound(bs, name) {
      PutBinding(bs, b, i, name);
    }
  }

  lemma BoundNow(bs: seq<Binding>, b: Binding)
    requires BindsAlso(bs, Put(bs, b), b)
    ensures Bound(Put(bs, b), b.domainname) == Some(b)
  {
  }

  // --------------------------------------------------------- the environment

  /** A message catalogue file, and the bytes of a translation. */
  type File = nat
  type Translation = seq<int>

  /** What _nl_find_msg returns: a null pointer, (char *) -1, or a translation. */
  datatype Found = NotFound | Failed | Hit(translation: Translation)

  /** Everything a lookup depends on besides the bindings: the locale of a category,
      the value of LANGUAGE or of the locale, the files in the file system and their
      contents, converted to the codeset of a binding. */
  datatype Env = Env(
    defaultDir: Text,
    cwd: Option<Text>,
    secure: bool,
    localeName: int -> Text,
    categoryName: int -> Text,
    categoryValue: int -> Text,
    findDomain: (Text, Text, Text) -> seq<File>,
    findMsg: (File, Option<Text>, Text) -> Found,
    pluralForm: (File, nat, Translation) -> Translation)

  const SLASH: Byte := 47
  const COLON: Byte := 58
  const MO: Text := [46, 109, 111]
  const C_LOCALE: Text := [67]
  const POSIX_LOCALE: Text := [80, 79, 83, 73, 88]
  const MESSAGES: Text := [109, 101, 115, 115, 97, 103, 101, 115]

  /** The directory of a domain's catalogues; None if the working directory is needed
      and not known. */
  function Directory(env: Env, bs: seq<Binding>, name: Text): Option<Text>
  {
    if Bound(bs, name).None? then Some(env.defaultDir)
    else
      var dir := Bound(bs, name).value.dirname;
      if dir != [] && dir[0] == SLASH then Some(dir)
      else if env.cwd.None? then None
      else Some(env.cwd.value + [SLASH] + dir)
  }

  function SkipColons(value: Text): (r: Text)
    ensures |r| <= |value| && (r != [] ==> r[0] != COLON)
  {
    if value != [] && value[0] == COLON then SkipColons(value[1..]) else value
  }

  /** The length of the first element of a colon separated list. */
  function FirstLength(value: Text): (n: nat)
    ensures n <= |value| && (value != [] && value[0] != COLON ==> n > 0)
  {
    if value == [] || value[0] == COLON then 0 else 1 + FirstLength(value[1..])
  }

  datatype Outcome = Next | Untranslated | Translated(file: File, translation: Translation)

  /** The first of some files that has the message. */
  function InFiles(env: Env, files: seq<File>, codeset: Option<Text>, msgid: Text): Outcome
  {
    if files == [] then Next
    else
      match env.findMsg(files[0], codeset, msgid)
      case NotFound => InFiles(env, files[1..], codeset, msgid)
      case Failed => Untranslated
      case Hit(t) => Translated(files[0], t)
  }

  /** The first of the locales in a colon separated list that has the message, up to
      C or POSIX. */
  function InLocales(env: Env, dir: Text, xname: Text, value: Text, codeset: Option<Text>, msgid: Text): (r: Outcome)
    ensures !r.Next?
    decreases |value|
  {
    var v := SkipColons(value);
    if v == [] then Untranslated
    else
      var n := FirstLength(v);
      var lang := v[..n];
      if env.secure && SLASH in lang then InLocales(env, dir, xname, v[n..], codeset, msgid)
      else if lang == C_LOCALE || lang == POSIX_LOCALE then Untranslated
      else
        var r := InFiles(env, env.findDomain(dir, lang, xname), codeset, msgid);
        if r.Next? then InLocales(env, dir, xname, v[n..], codeset, msgid) else r
  }

  /** A lookup without a cache. */
  function Lookup(env: Env, bs: seq<Binding>, name: Text, msgid: Text, category: int): (r: Outcome)
    ensures !r.Next?
  {
    var dir := Directory(env, bs, name);
    if dir.None? then Untranslated
    else
      InLocales(env, dir.value, env.categoryName(category) + [SLASH] + name + MO, env.categoryValue(category),
                CodesetOf(bs, name), msgid)
  }

  // ------------------------------------------------ what a lookup finds, by lists

  /** Texts with colons before, between and after them. */
  function Joined(es: seq<Text>, gaps: seq<Text>): Text
    requires |gaps| == |es| + 1
    decreases |es|
  {
    if es == [] then gaps[0] else gaps[0] + es[0] + Joined(es[1..], gaps[1..])
  }

  /** The elements of a colon separated list: not empty, without colons, and separated
      by one or more. */
  ghost predicate Elements(value: Text, es: seq<Text>, gaps: seq<Text>)
  {
    && |gaps| == |es| + 1
    && (forall i :: 0 <= i < |es| ==> es[i] != [] && 58 !in es[i])
    && (forall i, j :: 0 <= i < |gaps| && 0 <= j < |gaps[i]| ==> gaps[i][j] == 58)
    && (forall i :: 0 < i < |es| ==> gaps[i] != [])
    && value == Joined(es, gaps)
  }

  /** An element that goes up or down the directories is skipped in secure mode. */
  predicate Skipped(env: Env, e: Text)
  {
    env.secure && 47 in e
  }

  /** C and POSIX end the search. */
  predicate Stops(e: Text)
  {
    e == [67] || e == [80, 79, 83, 73, 88]
  }

  ghost predicate Misses(env: Env, files: seq<File>, codeset: Option<Text>, msgid: Text)
  {
    forall j :: 0 <= j < |files| ==> env.findMsg(files[j], codeset, msgid) == NotFound
  }

  /** File j is the first that has the message, and no earlier one fails. */
  ghost predicate FileHit(env: Env, files: seq<File>, codeset: Option<Text>, msgid: Text, j: nat,
    f: File, t: Translation)
  {
    j < |files| && Misses(env, files[..j], codeset, msgid) && files[j] == f && env.findMsg(f, codeset, msgid) == Hit(t)
  }

  /** The search goes on behind an element that is skipped, or that is neither C nor
      POSIX and has no file with the message. */
  ghost predicate GoesOn(env: Env, dir: Text, xname: Text, codeset: Option<Text>, msgid: Text, e: Text)
  {
    Skipped(env, e) || (!Stops(e) && Misses(env, env.findDomain(dir, e, xname), codeset, msgid))
  }

  /** File j of element i has the translation, and the search gets there. */
  ghost predicate HitAt(env: Env, dir: Text, xname: Text, codeset: Option<Text>, msgid: Text, es: seq<Text>,
    i: nat, j: nat, f: File, t: Translation)
  {
    && i < |es| && !Skipped(env, es[i]) && !Stops(es[i])
    && (forall k :: 0 <= k < i ==> GoesOn(env, dir, xname, codeset, msgid, es[k]))
    && FileHit(env, env.findDomain(dir, es[i], xname), codeset, msgid, j, f, t)
  }

  ghost predicate ListHit(env: Env, dir: Text, xname: Text, codeset: Option<Text>, msgid: Text, es: seq<Text>,
    f: File, t: Translation)
  {
    exists i: nat, j: nat :: HitAt(env, dir, xname, codeset, msgid, es, i, j, f, t)
  }

  lemma {:induction false} InFilesIs(env: Env, files: seq<File>, codeset: Option<Text>, msgid: Text,
    f: File, t: Translation)
    ensures InFiles(env, files, codeset, msgid).Next? <==> Misses(env, files, codeset, msgid)
    ensures InFiles(env, files, codeset, msgid) == Translated(f, t)
       <==> exists j: nat :: FileHit(env, files, codeset, msgid, j, f, t)
  {
    if files != [] {
      InFilesIs(env, files[1..], codeset, msgid, f, t);
      FileHitFirst(env, files, codeset, msgid, f, t);
      MissesAll(env, files, codeset, msgid);
    }
  }

  lemma MissesAll(env: Env, files: seq<File>, codeset: Option<Text>, msgid: Text)
    requires files != []
    ensures Misses(env, files, codeset, msgid)
       <==> env.findMsg(files[0], codeset, msgid) == NotFound && Misses(env, files[1..], codeset, msgid)
  {
    if env.findMsg(files[0], codeset, msgid) == NotFound && Misses(env, files[1..], codeset, msgid) {
      forall k | 0 <= k < |files| ensures env.findMsg(files[k], codeset, msgid) == NotFound {
        if k > 0 {
          assert files[k] == files[1..][k - 1];
        }
      }
    }
  }

  /** Whether the hit is the first file or a later one. */
  lemma FileHitFirst(env: Env, files: seq<File>, codeset: Option<Text>, msgid: Text, f: File, t: Translation)
    requires files != []
    ensures (exists j: nat :: FileHit(env, files, codeset, msgid, j, f, t)) <==>
      if env.findMsg(files[0], codeset, msgid) == NotFound then
        exists j: nat :: FileHit(env, files[1..], codeset, msgid, j, f, t)
      else files[0] == f && env.findMsg(f, codeset, msgid) == Hit(t)
  {
    if j: nat :| FileHit(env, files, codeset, msgid, j, f, t) {
      if j > 0 {
        FileHitLater(env, files, codeset, msgid, j - 1, f, t);
      }
    }
    if env.findMsg(files[0], codeset, msgid) == NotFound {
      if j: nat :| FileHit(env, files[1..], codeset, msgid, j, f, t) {
        FileHitLater(env, files, codeset, msgid, j, f, t);
      }
    } else if files[0] == f && env.findMsg(f, codeset, msgid) == Hit(t) {
      assert FileHit(env, files, codeset, msgid, 0, f, t);
    }
  }

  lemma FileHitLater(env: Env, files: seq<File>, codeset: Option<Text>, msgid: Text, j: nat, f: File, t: Translation)
    requires files != []
    ensures FileHit(env, files, codeset, msgid, j + 1, f, t) <==>
      env.findMsg(files[0], codeset, msgid) == NotFound && FileHit(env, files[1..], codeset, msgid, j, f, t)
  {
    if j + 1 < |files| {
      assert files[..j + 1][0] == files[0] && files[..j + 1][1..] == files[1..][..j];
      MissesAll(env, files[..j + 1], codeset, msgid);
    }
  }

  lemma {:induction false} ColonsSkipped(gap: Text, rest: Text)
    requires (forall j :: 0 <= j < |gap| ==> gap[j] == 58) && (rest != [] ==> rest[0] != 58)
    ensures SkipColons(gap + rest) == rest
  {
    if gap == [] {
      assert gap + rest == rest;
    } else {
      assert (gap + rest)[1..] == gap[1..] + rest;
      ColonsSkipped(gap[1..], rest);
    }
  }

  lemma {:induction false} ElementLength(e: Text, rest: Text)
    requires 58 !in e && (rest != [] ==> rest[0] == 58)
    ensures FirstLength(e + rest) == |e|
  {
    if e == [] {
      assert e + rest == rest;
    } else {
      assert (e + rest)[1..] == e[1..] + rest;
      ElementLength(e[1..], rest);
    }
  }

  /** The first element is what the loops cut off. */
  lemma FirstElement(value: Text, es: seq<Text>, gaps: seq<Text>)
    requires Elements(value, es, gaps)
    ensures var v := SkipColons(value);
      if es == [] then v == []
      else
        && v != [] && v[..FirstLength(v)] == es[0]
        && v[FirstLength(v)..] == Joined(es[1..], gaps[1..]) && Elements(v[FirstLength(v)..], es[1..], gaps[1..])
  {
    if es == [] {
      assert value == gaps[0] + [];
      ColonsSkipped(gaps[0], []);
    } else {
      var rest := Joined(es[1..], gaps[1..]);
      assert rest != [] ==> rest[0] == 58;
      assert value == gaps[0] + (es[0] + rest);
      ColonsSkipped(gaps[0], es[0] + rest);
      ElementLength(es[0], rest);
      assert (es[0] + rest)[..|es[0]|] == es[0] && (es[0] + rest)[|es[0]|..] == rest;
    }
  }

  /** Every list has elements. */
  lemma {:induction false} ElementsExist(value: Text) returns (es: seq<Text>, gaps: seq<Text>)
    ensures Elements(value, es, gaps)
    decreases |value|
  {
    if value == [] {
      es, gaps := [], [[]];
    } else if value[0] == 58 {
      es, gaps := ElementsExist(value[1..]);
      gaps := gaps[0 := [58] + gaps[0]];
      GapGrows(value, es, gaps);
    } else {
      es, gaps := ElementsExist(value[1..]);
      if es != [] && gaps[0] == [] {
        var e := es[0];
        es := es[0 := [value[0]] + e];
        ElementGrows(value, e, es, gaps);
      } else {
        ElementStarts(value, es, gaps);
        es, gaps := [[value[0]]] + es, [[]] + gaps;
      }
    }
  }

  lemma GapGrows(value: Text, es: seq<Text>, gaps: seq<Text>)
    requires value != [] && value[0] == 58 && |gaps| == |es| + 1 && gaps[0] != [] && gaps[0][0] == 58
    requires Elements(value[1..], es, gaps[0 := gaps[0][1..]])
    ensures Elements(value, es, gaps)
  {
    var old_ := gaps[0 := gaps[0][1..]];
    assert gaps[0] == [58] + old_[0];
    assert old_[1..] == gaps[1..];
    forall i, j | 0 <= i < |gaps| && 0 <= j < |gaps[i]| ensures gaps[i][j] == 58 {
      if i == 0 {
        assert j > 0 ==> gaps[0][j] == old_[0][j - 1];
      } else {
        assert gaps[i] == old_[i];
      }
    }
    forall i | 0 < i < |es| ensures gaps[i] != [] {
      assert gaps[i] == old_[i];
    }
    assert value == [58] + value[1..];
  }

  lemma ElementGrows(value: Text, e: Text, es: seq<Text>, gaps: seq<Text>)
    requires value != [] && value[0] != 58 && es != [] && es[0] == [value[0]] + e
    requires |gaps| == |es| + 1 && gaps[0] == [] && Elements(value[1..], es[0 := e], gaps)
    ensures Elements(value, es, gaps)
  {
    var old_ := es[0 := e];
    assert old_[1..] == es[1..];
    forall i | 0 <= i < |es| ensures es[i] != [] && 58 !in es[i] {
      if i > 0 {
        assert es[i] == old_[i];
      } else {
        assert e == old_[0];
      }
    }
    assert value == [value[0]] + value[1..];
  }

  lemma ElementStarts(value: Text, es: seq<Text>, gaps: seq<Text>)
    requires value != [] && value[0] != 58 && Elements(value[1..], es, gaps) && (es != [] ==> gaps[0] != [])
    ensures Elements(value, [[value[0]]] + es, [[]] + gaps)
  {
    var es', gaps' := [[value[0]]] + es, [[]] + gaps;
    assert es'[1..] == es && gaps'[1..] == gaps;
    assert value == [] + [value[0]] + value[1..];
  }

  /** The locales find exactly what stands first in the list. */
  lemma {:induction false} InLocalesExactly(env: Env, dir: Text, xname: Text, value: Text, codeset: Option<Text>,
    msgid: Text, es: seq<Text>, gaps: seq<Text>, f: File, t: Translation)
    requires Elements(value, es, gaps)
    ensures InLocales(env, dir, xname, value, codeset, msgid) == Translated(f, t)
       <==> ListHit(env, dir, xname, codeset, msgid, es, f, t)
    decreases |es|
  {
    FirstElement(value, es, gaps);
    InLocalesStep(env, dir, xname, value, codeset, msgid);
    if es == [] {
      assert !ListHit(env, dir, xname, codeset, msgid, es, f, t);
    } else {
      assert |gaps| > 0;
      hide Elements, Misses, InFiles, InLocales, ListHit, FileHit, Skipped, Stops;
      var v := SkipColons(value);
      var rest := v[FirstLength(v)..];
      InLocalesExactly(env, dir, xname, rest, codeset, msgid, es[1..], gaps[1..], f, t);
      InFilesIs(env, env.findDomain(dir, es[0], xname), codeset, msgid, f, t);
      HitFirst(env, dir, xname, codeset, msgid, es, f, t);
    }
  }

  lemma InLocalesStep(env: Env, dir: Text, xname: Text, value: Text, codeset: Option<Text>, msgid: Text)
    ensures var v := SkipColons(value); var e := v[..FirstLength(v)]; var rest := v[FirstLength(v)..];
      var r := InFiles(env, env.findDomain(dir, e, xname), codeset, msgid);
      InLocales(env, dir, xname, value, codeset, msgid) ==
        if v == [] then Untranslated
        else if Skipped(env, e) then InLocales(env, dir, xname, rest, codeset, msgid)
        else if Stops(e) then Untranslated
        else if r.Next? then InLocales(env, dir, xname, rest, codeset, msgid) else r
  {
    hide InFiles;
  }

  /** Whether the hit is in the first element or in a later one. */
  lemma HitFirst(env: Env, dir: Text, xname: Text, codeset: Option<Text>, msgid: Text, es: seq<Text>,
    f: File, t: Translation)
    requires es != []
    ensures ListHit(env, dir, xname, codeset, msgid, es, f, t) <==>
      if GoesOn(env, dir, xname, codeset, msgid, es[0]) then
        ListHit(env, dir, xname, codeset, msgid, es[1..], f, t)
      else
        && !Stops(es[0])
        && exists j: nat :: FileHit(env, env.findDomain(dir, es[0], xname), codeset, msgid, j, f, t)
  {
    var files := env.findDomain(dir, es[0], xname);
    if i: nat, j: nat :| HitAt(env, dir, xname, codeset, msgid, es, i, j, f, t) {
      if i > 0 {
        HitLater(env, dir, xname, codeset, msgid, es, i - 1, j, f, t);
      }
    }
    if GoesOn(env, dir, xname, codeset, msgid, es[0]) {
      if i: nat, j: nat :| HitAt(env, dir, xname, codeset, msgid, es[1..], i, j, f, t) {
        HitLater(env, dir, xname, codeset, msgid, es, i, j, f, t);
      }
    } else if !Stops(es[0]) {
      if j: nat :| FileHit(env, files, codeset, msgid, j, f, t) {
        assert HitAt(env, dir, xname, codeset, msgid, es, 0, j, f, t);
      }
    }
  }

  lemma HitLater(env: Env, dir: Text, xname: Text, codeset: Option<Text>, msgid: Text, es: seq<Text>,
    i: nat, j: nat, f: File, t: Translation)
    requires es != []
    ensures HitAt(env, dir, xname, codeset, msgid, es, i + 1, j, f, t)
       <==> GoesOn(env, dir, xname, codeset, msgid, es[0])
            && HitAt(env, dir, xname, codeset, msgid, es[1..], i, j, f, t)
  {
    hide Skipped, Stops, GoesOn, FileHit;
    if i + 1 < |es| {
      assert es[i + 1] == es[1..][i];
      if HitAt(env, dir, xname, codeset, msgid, es, i + 1, j, f, t) {
        forall k | 0 <= k < i ensures GoesOn(env, dir, xname, codeset, msgid, es[1..][k]) {
          assert es[1..][k] == es[k + 1];
        }
      }
      if GoesOn(env, dir, xname, codeset, msgid, es[0]) && HitAt(env, dir, xname, codeset, msgid, es[1..], i, j, f, t) {
        forall k | 0 <= k < i + 1 ensures GoesOn(env, dir, xname, codeset, msgid, es[k]) {
          if k > 0 {
            assert es[k] == es[1..][k - 1];
          }
        }
      }
    }
  }

  /** The binding of a domain, if it has one. */
  ghost predicate IsBinding(bs: seq<Binding>, name: Text, b: Option<Binding>)
  {
    match b
    case None => forall i :: 0 <= i < |bs| ==> bs[i].domainname != name
    case Some(binding) => binding in bs && binding.domainname == name
  }

  /** The directory of its catalogues: that of the binding, behind the working directory
      if it is relative; without a binding the default. */
  ghost predicate IsDirectory(env: Env, b: Option<Binding>, dir: Text)
  {
    match b
    case None => dir == env.defaultDir
    case Some(binding) =>
      if binding.dirname != [] && binding.dirname[0] == 47 then dir == binding.dirname
      else env.cwd.Some? && dir == env.cwd.value + [47] + binding.dirname
  }

  function CodesetIn(b: Option<Binding>): Option<Text>
  {
    if b.Some? then b.value.codeset else None
  }

  /** A lookup finds a translation: in the binding's directory, in the file
      CATEGORY/domain.mo, for the first of the locales that the category's value lists. */
  ghost predicate Finds(env: Env, bs: seq<Binding>, name: Text, msgid: Text, category: int, f: File, t: Translation)
  {
    var xname := env.categoryName(category) + [47] + name + [46, 109, 111];
    exists b, dir, es, gaps ::
      && IsBinding(bs, name, b) && IsDirectory(env, b, dir) && Elements(env.categoryValue(category), es, gaps)
      && ListHit(env, dir, xname, CodesetIn(b), msgid, es, f, t)
  }

  lemma BoundIs(bs: seq<Binding>, name: Text, b: Option<Binding>)
    requires Sorted(bs)
    ensures IsBinding(bs, name, b) <==> b == Bound(bs, name)
  {
    if b.Some? && b.value in bs && b.value.domainname == name {
      var i :| 0 <= i < |bs| && bs[i] == b.value;
      BoundAt(bs, name, i);
    }
    if Bound(bs, name).None? {
      BoundNowhere(bs, name);
    } else {
      var i :| 0 <= i < |bs| && bs[i] == Bound(bs, name).value;
    }
  }

  lemma LookupIs(env: Env, bs: seq<Binding>, name: Text, msgid: Text, category: int, dir: Text)
    requires IsDirectory(env, Bound(bs, name), dir)
    ensures Lookup(env, bs, name, msgid, category)
         == InLocales(env, dir, env.categoryName(category) + [47] + name + [46, 109, 111],
                      env.categoryValue(category), CodesetIn(Bound(bs, name)), msgid)
  {
    hide Bound, InLocales;
  }

  lemma LooksSomewhere(env: Env, bs: seq<Binding>, name: Text, msgid: Text, category: int) returns (dir: Text)
    requires Lookup(env, bs, name, msgid, category) != Untranslated
    ensures IsDirectory(env, Bound(bs, name), dir)
  {
    hide Bound, InLocales;
    dir := Directory(env, bs, name).value;
  }

  /** What a lookup without a cache finds. */
  lemma LookupExactly(env: Env, bs: seq<Binding>, name: Text, msgid: Text, category: int, f: File, t: Translation)
    requires Sorted(bs)
    ensures Lookup(env, bs, name, msgid, category) == Translated(f, t) <==> Finds(env, bs, name, msgid, category, f, t)
  {
    var b := Bound(bs, name);
    BoundIs(bs, name, b);
    hide Lookup, Bound, Sorted, IsBinding, IsDirectory, Elements, InLocales, ListHit;
    var value := env.categoryValue(category);
    var xname := env.categoryName(category) + [47] + name + [46, 109, 111];
    if Lookup(env, bs, name, msgid, category) == Translated(f, t) {
      var dir := LooksSomewhere(env, bs, name, msgid, category);
      var es, gaps := ElementsExist(value);
      LookupIs(env, bs, name, msgid, category, dir);
      InLocalesExactly(env, dir, xname, value, CodesetIn(b), msgid, es, gaps, f, t);
    }
    if Finds(env, bs, name, msgid, category, f, t) {
      var b', dir, es, gaps :|
        && IsBinding(bs, name, b') && IsDirectory(env, b', dir) && Elements(value, es, gaps)
        && ListHit(env, dir, xname, CodesetIn(b'), msgid, es, f, t);
      BoundIs(bs, name, b');
      LookupIs(env, bs, name, msgid, category, dir);
      InLocalesExactly(env, dir, xname, value, CodesetIn(b), msgid, es, gaps, f, t);
    }
  }

  /** What dcigettext returns, without a cache. */
  function Answer(env: Env, r: Outcome, msgid1: Text, msgid2: Text, plural: bool, n: nat): Translation
  {
    if r.Translated? then if plural then env.pluralForm(r.file, n, r.translation) else r.translation
    else if !plural || n == 1 then msgid1
    else msgid2
  }

  // ------------------------------------------------------------------- the cache

  /** The key of struct known_translation_t. */
  datatype Key = Key(msgid: Text, domainname: Text, localename: Text, category: int)

  datatype Known = Known(counter: int, file: File, translation: Translation)

  /** transcmp. */
  function TransCompare(a: Key, b: Key): int
  {
    if Compare(a.msgid, b.msgid) != 0 then Compare(a.msgid, b.msgid)
    else if Compare(a.domainname, b.domainname) != 0 then Compare(a.domainname, b.domainname)
    else if Compare(a.localename, b.localename) != 0 then Compare(a.localename, b.localename)
    else a.category - b.category
  }

  /** transcmp is a total order on the keys, as the search tree requires. */
  lemma TransCompareLaws(a: Key, b: Key)
    ensures TransCompare(a, b) == 0 <==> a == b
    ensures TransCompare(a, b) > 0 <==> TransCompare(b, a) < 0
  {
    hide Compare;
    CompareLaws(a.msgid, b.msgid);
    CompareLaws(a.domainname, b.domainname);
    CompareLaws(a.localename, b.localename);
    CompareLaws(b.msgid, a.msgid);
    CompareLaws(b.domainname, a.domainname);
    CompareLaws(b.localename, a.localename);
  }

  lemma TransCompareTrans(a: Key, b: Key, c: Key)
    requires TransCompare(a, b) < 0 && TransCompare(b, c) < 0
    ensures TransCompare(a, c) < 0
  {
    hide Compare;
    TextTrans(a.msgid, b.msgid, c.msgid);
    TextTrans(a.domainname, b.domainname, c.domainname);
    TextTrans(a.localename, b.localename, c.localename);
  }

  lemma TextTrans(a: Text, b: Text, c: Text)
    ensures Compare(a, b) < 0 && Compare(b, c) <= 0 ==> Compare(a, c) < 0
    ensures Compare(a, b) <= 0 && Compare(b, c) < 0 ==> Compare(a, c) < 0
    ensures Compare(a, b) == 0 && Compare(b, c) == 0 ==> Compare(a, c) == 0
  {
    hide Compare;
    CompareLaws(a, b);
    CompareLaws(b, c);
    CompareLaws(a, c);
    if Compare(a, b) < 0 && Compare(b, c) < 0 {
      assert Less(a, b) && Less(b, c);
      LessTrans(a, b, c);
    }
  }

  /** A cached translation that is as old as the last change of the bindings is what a
      lookup without the cache finds. */
  ghost predicate Fresh(env: Env, bs: seq<Binding>, counter: int, cache: map<Key, Known>)
  {
    forall k :: k in cache ==>
      && cache[k].counter <= counter
      && (cache[k].counter == counter && k.localename == env.localeName(k.category) ==>
            Lookup(env, bs, k.domainname, k.msgid, k.category) == Translated(cache[k].file, cache[k].translation))
  }

  /** The global variables. */
  class State {
    const env: Env
    var bindings: seq<Binding>
    var defaultDomain: Text
    var counter: int
    var cache: map<Key, Known>

    ghost predicate Valid()
      reads this
    {
      Sorted(bindings) && Fresh(env, bindings, counter, cache)
    }

    constructor (env: Env)
      ensures Valid() && this.env == env && bindings == [] && defaultDomain == MESSAGES
    {
      this.env, bindings, defaultDomain, counter, cache := env, [], MESSAGES, 0, map[];
    }

    /** set_binding_values. None as a domain name is a null pointer; the results are
        what *dirnamep and *codesetp point to afterwards. */
    method SetBindingValues(domainname: Option<Text>, dir: Request, codeset: Request)
      returns (dirResult: Option<Text>, codesetResult: Option<Text>)
      requires Valid()
      modifies this
      ensures Valid() && defaultDomain == old(defaultDomain) && cache == old(cache)
      ensures bindings == SetBinding(old(bindings), domainname, dir, codeset, env.defaultDir)
      ensures counter == old(counter) + if bindings == old(bindings) then 0 else 1
      ensures domainname.Some? && domainname.value != [] ==>
        BindsAs(old(bindings), bindings, domainname.value, dir, codeset, env.defaultDir)
      ensures domainname.None? || domainname.value == [] ==> dirResult == None && codesetResult == None
      ensures domainname.Some? && domainname.value != [] ==>
        && (!dir.Ignore? ==> dirResult == Some(DirOf(bindings, domainname.value, env.defaultDir)))
        && (!codeset.Ignore? ==> codesetResult == CodesetOf(bindings, domainname.value))
    {
      dirResult, codesetResult := None, None;
      if domainname.None? || domainname.value == [] {
        return;
      }
      var name, modified := domainname.value, false;
      ghost var place;
      var at;
      SetBindingIs(bindings, name, dir, codeset, env.defaultDir);
      hide Sorted, Fresh, Place, Bound, Put, Less, BindsAlso, BindsAs;
      at, place := FindBinding(bindings, name);
      if at.Some? {
        var binding;
        binding, modified, dirResult, codesetResult := ChangeBinding(bindings[at.value], dir, codeset);
        Replaced(bindings, binding, at.value);
        PutBinds(bindings, binding, at.value);
        BoundNow(bindings, binding);
        bindings := bindings[at.value := binding];
      } else if !dir.Set? && !codeset.Set? {
        if dir.Query? {
          dirResult := Some(env.defaultDir);
        }
      } else {
        var binding;
        binding, dirResult, codesetResult := CreateBinding(name, dir, codeset, env.defaultDir);
        var i := InsertPlace(bindings, name);
        Inserted(bindings, binding, i);
        PutBinds(bindings, binding, i);
        BoundNow(bindings, binding);
        bindings := bindings[..i] + [binding] + bindings[i..];
        modified := true;
      }
      if modified {
        Outdated(env, old(bindings), bindings, counter, cache);
        counter := counter + 1;
      } else {
        assert bindings == old(bindings);
      }
    }

    /** textdomain. */
    method TextDomain(domainname: Option<Text>) returns (result: Text)
      requires Valid()
      modifies this
      ensures Valid() && bindings == old(bindings) && cache == old(cache)
      ensures defaultDomain == SetDefault(old(defaultDomain), domainname) && result == defaultDomain
      ensures domainname.Some? ==>
        defaultDomain == if domainname.value == [] then [109, 101, 115, 115, 97, 103, 101, 115] else domainname.value
      ensures domainname.None? ==> defaultDomain == old(defaultDomain)
      ensures counter == old(counter) + (if domainname.None? then 0 else 1)
    {
      if domainname.None? {
        return defaultDomain;
      }
      var name := domainname.value;
      if name == [] || name == MESSAGES {
        defaultDomain := MESSAGES;
      } else if name != defaultDomain {
        defaultDomain := name;
      }
      Outdated(env, bindings, bindings, counter, cache);
      counter := counter + 1;
      return defaultDomain;
    }

    /** dcigettext: whatever is in the cache, the answer is that of a lookup without
        it. */
    method Dcigettext(domainname: Option<Text>, msgid1: Option<Text>, msgid2: Text, plural: bool, n: nat, category: int)
      returns (retval: Option<Translation>)
      requires Valid()
      modifies this`cache
      ensures Valid()
      ensures retval == Reply(env, bindings, defaultDomain, domainname, msgid1, msgid2, plural, n, category)
      ensures msgid1.None? ==> retval == None
      ensures msgid1.Some? ==>
        var name, msgid := if domainname.Some? then domainname.value else defaultDomain, msgid1.value;
        && (forall f, t :: Finds(env, bindings, name, msgid, category, f, t) ==>
              retval == Some(if plural then env.pluralForm(f, n, t) else t))
        && ((forall f, t :: !Finds(env, bindings, name, msgid, category, f, t)) ==>
              retval == Some(if plural then if n == 1 then msgid else msgid2 else msgid))
    {
      if msgid1.Some? {
        AnswerIs(env, bindings, if domainname.Some? then domainname.value else defaultDomain, msgid1.value, msgid2,
                 plural, n, category);
      }
      if msgid1.None? {
        return None;
      }
      var msgid := msgid1.value;
      var name := if domainname.None? then defaultDomain else domainname.value;
      var search := Key(msgid, name, env.localeName(category), category);
      if search in cache && cache[search].counter == counter {
        var known := cache[search];
        return Some(if plural then env.pluralForm(known.file, n, known.translation) else known.translation);
      }
      hide Lookup, Fresh;
      var r := SearchCatalogs(env, bindings, name, msgid, category);
      if r.Translated? {
        Remember(env, bindings, counter, cache, search, r.file, r.translation);
        cache := cache[search := Known(counter, r.file, r.translation)];
        retval := Some(if plural then env.pluralForm(r.file, n, r.translation) else r.translation);
      } else {
        retval := Some(if !plural || n == 1 then msgid else msgid2);
      }
    }
  }

  /** The slow path of dcigettext. */
  method SearchCatalogs(env: Env, bs: seq<Binding>, name: Text, msgid: Text, category: int) returns (r: Outcome)
    requires Sorted(bs)
    ensures r == Lookup(env, bs, name, msgid, category)
  {
    var at, _ := FindBinding(bs, name);
    var dirname, codeset := env.defaultDir, None;
    if at.Some? {
      dirname, codeset := bs[at.value].dirname, bs[at.value].codeset;
      if dirname == [] || dirname[0] != SLASH {
        if env.cwd.None? {
          return Untranslated;
        }
        dirname := env.cwd.value + [SLASH] + dirname;
      }
    }
    var xname := env.categoryName(category) + [SLASH] + name + MO;
    r := SearchLocales(env, dirname, xname, env.categoryValue(category), codeset, msgid);
  }

  /** The loop over the locales of the category value. */
  method SearchLocales(env: Env, dir: Text, xname: Text, value: Text, codeset: Option<Text>, msgid: Text)
    returns (r: Outcome)
    ensures r == InLocales(env, dir, xname, value, codeset, msgid)
  {
    hide InFiles;
    var v := value;
    while true
      invariant InLocales(env, dir, xname, v, codeset, msgid) == InLocales(env, dir, xname, value, codeset, msgid)
      decreases |v|
    {
      var start := v;
      v := SkipColonsLoop(v);
      if v == [] {
        return Untranslated;
      }
      var n := FirstLengthLoop(v);
      var lang := v[..n];
      v := v[n..];
      if env.secure && SLASH in lang {
        continue;
      }
      if lang == C_LOCALE || lang == POSIX_LOCALE {
        return Untranslated;
      }
      r := SearchFiles(env, env.findDomain(dir, lang, xname), codeset, msgid);
      if !r.Next? {
        return;
      }
    }
  }

  method SkipColonsLoop(value: Text) returns (v: Text)
    ensures v == SkipColons(value)
  {
    v := value;
    while v != [] && v[0] == COLON
      invariant SkipColons(v) == SkipColons(value)
      decreases |v|
    {
      v := v[1..];
    }
  }

  method FirstLengthLoop(value: Text) returns (n: nat)
    ensures n == FirstLength(value)
  {
    n := 0;
    while n < |value| && value[n] != COLON
      invariant n <= |value| && n + FirstLength(value[n..]) == FirstLength(value)
    {
      assert value[n..][1..] == value[n + 1..];
      n := n + 1;
    }
  }

  /** A domain and its successors. */
  method SearchFiles(env: Env, files: seq<File>, codeset: Option<Text>, msgid: Text) returns (r: Outcome)
    ensures r == InFiles(env, files, codeset, msgid)
  {
    var cnt := 0;
    while cnt < |files|
      invariant cnt <= |files| && InFiles(env, files[cnt..], codeset, msgid) == InFiles(env, files, codeset, msgid)
    {
      assert files[cnt..][1..] == files[cnt + 1..];
      match env.findMsg(files[cnt], codeset, msgid) {
        case Failed => return Untranslated;
        case Hit(t) => return Translated(files[cnt], t);
        case NotFound =>
      }
      cnt := cnt + 1;
    }
    return Next;
  }

  lemma Remember(env: Env, bs: seq<Binding>, counter: int, cache: map<Key, Known>, key: Key, file: File, t: Translation)
    requires Fresh(env, bs, counter, cache)
    requires Lookup(env, bs, key.domainname, key.msgid, key.category) == Translated(file, t)
    ensures Fresh(env, bs, counter, cache[key := Known(counter, file, t)])
  {
    hide Lookup;
  }

  /** What dcigettext returns. */
  function Reply(env: Env, bs: seq<Binding>, default: Text, domainname: Option<Text>, msgid1: Option<Text>,
    msgid2: Text, plural: bool, n: nat, category: int): Option<Translation>
  {
    if msgid1.None? then None
    else
      var name := if domainname.None? then default else domainname.value;
      Some(Answer(env, Lookup(env, bs, name, msgid1.value, category), msgid1.value, msgid2, plural, n))
  }

  /** The answer by what the lookup finds; untranslated, the Germanic plural rule. */
  lemma AnswerIs(env: Env, bs: seq<Binding>, name: Text, msgid1: Text, msgid2: Text, plural: bool, n: nat,
    category: int)
    requires Sorted(bs)
    ensures var answer := Answer(env, Lookup(env, bs, name, msgid1, category), msgid1, msgid2, plural, n);
      && (forall f, t :: Finds(env, bs, name, msgid1, category, f, t) ==>
            answer == if plural then env.pluralForm(f, n, t) else t)
      && ((forall f, t :: !Finds(env, bs, name, msgid1, category, f, t)) ==>
            answer == if plural then if n == 1 then msgid1 else msgid2 else msgid1)
  {
    hide Lookup, Finds, Sorted;
    forall f, t
      ensures Lookup(env, bs, name, msgid1, category) == Translated(f, t)
         <==> Finds(env, bs, name, msgid1, category, f, t)
    {
      LookupExactly(env, bs, name, msgid1, category, f, t);
    }
  }

  // ----------------------------------------------------------------- whole runs

  datatype Call =
    | Bind(domainname: Option<Text>, dir: Request, codeset: Request)
    | SetDomain(domainname: Option<Text>)
    | Get(domainname: Option<Text>, msgid1: Option<Text>, msgid2: Text, plural: bool, n: nat, category: int)

  /** The answers to the lookups in a sequence of calls, in a program without a cache. */
  function Replies(env: Env, bs: seq<Binding>, default: Text, calls: seq<Call>): seq<Option<Translation>>
    decreases |calls|
  {
    if calls == [] then []
    else
      match calls[0]
      case Bind(name, dir, codeset) =>
        Replies(env, SetBinding(bs, name, dir, codeset, env.defaultDir), default, calls[1..])
      case SetDomain(name) => Replies(env, bs, SetDefault(default, name), calls[1..])
      case Get(name, msgid1, msgid2, plural, n, category) =>
        [Reply(env, bs, default, name, msgid1, msgid2, plural, n, category)] + Replies(env, bs, default, calls[1..])
  }

  /** Over every sequence of calls the cache makes no difference. */
  method Run(state: State, calls: seq<Call>) returns (replies: seq<Option<Translation>>)
    requires state.Valid()
    modifies state
    ensures state.Valid()
    ensures replies == Replies(state.env, old(state.bindings), old(state.defaultDomain), calls)
  {
    hide Reply, SetBinding, SetDefault, Sorted, Fresh;
    replies := [];
    var i := 0;
    while i < |calls|
      invariant i <= |calls| && state.Valid()
      invariant replies + Replies(state.env, state.bindings, state.defaultDomain, calls[i..])
             == Replies(state.env, old(state.bindings), old(state.defaultDomain), calls)
    {
      assert calls[i..][1..] == calls[i + 1..];
      match calls[i] {
        case Bind(name, dir, codeset) =>
          var _, _ := state.SetBindingValues(name, dir, codeset);
        case SetDomain(name) =>
          var _ := state.TextDomain(name);
        case Get(name, msgid1, msgid2, plural, n, category) =>
          var retval := state.Dcigettext(name, msgid1, msgid2, plural, n, category);
          var more := Replies(state.env, state.bindings, state.defaultDomain, calls[i + 1..]);
          assert replies + ([retval] + more) == (replies + [retval]) + more;
          replies := replies + [retval];
      }
      i := i + 1;
    }
    assert replies + [] == replies;
  }

  /** The bindings after set_binding_values. */
  function SetBinding(bs: seq<Binding>, name: Option<Text>, dir: Request, codeset: Request, default: Text): seq<Binding>
  {
    if name.None? || name.value == [] then bs
    else if Bound(bs, name.value).None? && !dir.Set? && !codeset.Set? then bs
    else Put(bs, NewBinding(bs, name.value, dir, codeset, default))
  }

  /** What a request does to the bindings: a directory or codeset that is set is the
      domain's from then on, one that is not stays, a binding is made only to set
      something, and no other domain's binding changes. */
  ghost predicate BindsAs(bs: seq<Binding>, bs': seq<Binding>, name: Text, dir: Request, codeset: Request,
    default: Text)
  {
    && (Bound(bs', name).Some? <==> Bound(bs, name).Some? || dir.Set? || codeset.Set?)
    && DirOf(bs', name, default) == (match dir case Set(value) => value case _ => DirOf(bs, name, default))
    && CodesetOf(bs', name) == (match codeset case Set(value) => Some(value) case _ => CodesetOf(bs, name))
    && forall other: Text :: other != name ==> Bound(bs', other) == Bound(bs, other)
  }

  lemma SetBindingIs(bs: seq<Binding>, name: Text, dir: Request, codeset: Request, default: Text)
    requires Sorted(bs) && name != []
    ensures BindsAs(bs, SetBinding(bs, Some(name), dir, codeset, default), name, dir, codeset, default)
  {
    if Bound(bs, name).Some? || dir.Set? || codeset.Set? {
      var b := NewBinding(bs, name, dir, codeset, default);
      var i := PlaceOf(bs, name);
      hide Put, Sorted, Bound;
      PutBinds(bs, b, i);
    }
  }

  lemma PlaceOf(bs: seq<Binding>, name: Text) returns (i: nat)
    ensures Place(bs, name, i)
  {
    i := 0;
    while i < |bs| && Less(bs[i].domainname, name)
      invariant i <= |bs| && forall j :: 0 <= j < i ==> Less(bs[j].domainname, name)
    {
      i := i + 1;
    }
    if i < |bs| {
      CompareLaws(bs[i].domainname, name);
      CompareLaws(name, bs[i].domainname);
    }
  }

  function SetDefault(current: Text, name: Option<Text>): Text
  {
    if name.None? then current else if name.value == [] then MESSAGES else name.value
  }

  /** Changes to an existing binding; a value that is already there is left alone. */
  method ChangeBinding(oldBinding: Binding, dir: Request, codeset: Request)
    returns (binding: Binding, modified: bool, dirResult: Option<Text>, codesetResult: Option<Text>)
    ensures binding == Binding(oldBinding.domainname,
                               if dir.Set? then dir.value else oldBinding.dirname,
                               if codeset.Set? then Some(codeset.value) else oldBinding.codeset)
    ensures modified <==> binding != oldBinding
    ensures dirResult == (if dir.Ignore? then None else Some(binding.dirname))
    ensures codesetResult == (if codeset.Ignore? then None else binding.codeset)
  {
    binding, modified, dirResult, codesetResult := oldBinding, false, None, None;
    if dir.Query? {
      dirResult := Some(binding.dirname);
    } else if dir.Set? {
      if dir.value != binding.dirname {
        binding, modified := binding.(dirname := dir.value), true;
      }
      dirResult := Some(binding.dirname);
    }
    if codeset.Query? {
      codesetResult := binding.codeset;
    } else if codeset.Set? {
      if binding.codeset == None || binding.codeset.value != codeset.value {
        binding, modified := binding.(codeset := Some(codeset.value)), true;
      }
      codesetResult := binding.codeset;
    }
  }

  /** A new binding, with the default where no value is given. */
  method CreateBinding(name: Text, dir: Request, codeset: Request, default: Text)
    returns (binding: Binding, dirResult: Option<Text>, codesetResult: Option<Text>)
    ensures binding == Binding(name,
                               if dir.Set? then dir.value else default,
                               if codeset.Set? then Some(codeset.value) else None)
    ensures dirResult == (if dir.Ignore? then None else Some(binding.dirname))
    ensures codesetResult == (if codeset.Ignore? then None else binding.codeset)
  {
    binding := Binding(name, if dir.Set? then dir.value else default,
                       if codeset.Set? then Some(codeset.value) else None);
    dirResult, codesetResult := None, None;
    if !dir.Ignore? {
      dirResult := Some(binding.dirname);
    }
    if !codeset.Ignore? {
      codesetResult := binding.codeset;
    }
  }

  /** The loop that looks for the place of a new binding. */
  method InsertPlace(bs: seq<Binding>, name: Text) returns (i: nat)
    requires Sorted(bs) && Bound(bs, name).None?
    ensures Place(bs, name, i) && (i < |bs| ==> bs[i].domainname != name)
  {
    BoundNowhere(bs, name);
    i := 0;
    while i < |bs| && Compare(name, bs[i].domainname) > 0
      invariant i <= |bs| && forall j :: 0 <= j < i ==> Less(bs[j].domainname, name)
    {
      CompareLaws(name, bs[i].domainname);
      i := i + 1;
    }
    if i < |bs| {
      CompareLaws(name, bs[i].domainname);
    }
  }

  lemma {:induction false} BoundNowhere(bs: seq<Binding>, name: Text)
    requires Bound(bs, name).None?
    ensures forall i :: 0 <= i < |bs| ==> bs[i].domainname != name
  {
    if bs != [] {
      BoundNowhere(bs[1..], name);
      assert forall i :: 0 < i < |bs| ==> bs[i] == bs[1..][i - 1];
    }
  }

  lemma Replaced(bs: seq<Binding>, b: Binding, i: nat)
    requires Place(bs, b.domainname, i) && i < |bs| && bs[i].domainname == b.domainname
    ensures bs[i := b] == Put(bs, b)
  {
    PutIs(bs, b, i);
  }

  lemma Inserted(bs: seq<Binding>, b: Binding, i: nat)
    requires Place(bs, b.domainname, i) && (i < |bs| ==> bs[i].domainname != b.domainname)
    ensures bs[..i] + [b] + bs[i..] == Put(bs, b) != bs
  {
    PutIs(bs, b, i);
    assert |bs[..i] + [b] + bs[i..]| == |bs| + 1;
  }

  /** Counting up the counter makes every cached translation outdated. */
  lemma Outdated(env: Env, bs: seq<Binding>, bs': seq<Binding>, counter: int, cache: map<Key, Known>)
    requires Fresh(env, bs, counter, cache)
    ensures Fresh(env, bs', counter + 1, cache)
  {
    hide Lookup;
  }
}

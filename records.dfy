/**
 * The folder-per-user record store of server.js. A base directory such as
 * `data/RegisterData` is an ordered listing of entries; each folder may hold
 * a `userdata.json` (parsed here, or `None` when it is missing or does not
 * parse) and a `profile.png`. JSON values and the image bytes are kept
 * abstract: what matters is which record lands in which entry. Paths follow
 * POSIX `path.join`, and entry names are compared case-sensitively.
 */
module Records {
  import opened Wrappers
  import opened Text

  /**
   * A JSON value in a user record: a string, or any other JSON value kept as
   * its opaque text together with its JavaScript truthiness (false for
   * `null`, `false`, `0`) and whether `Buffer.from` accepts it (arrays and
   * array-like objects do; numbers, booleans and plain objects make it throw).
   */
  datatype Value = Str(text: string) | NonString(raw: string, truthy: bool, bufferable: bool)

  /** A parsed `userdata.json` object: its fields by name. */
  type Record = map<string, Value>

  /** JavaScript truthiness of a JSON value. */
  predicate Truthy(v: Value)
  {
    match v
    case Str(t) => t != ""
    case NonString(_, b, _) => b
  }

  /**
   * One entry of a base directory: its name, its parsed `userdata.json`
   * (`None`: absent, unparseable, or the entry is a plain file) and the
   * contents of its `profile.png` (the `pngBase64` value it was decoded from).
   */
  datatype Slot = Slot(name: string, data: Option<Record>, image: Option<Value>)

  /** What the register handler answers. */
  datatype RegisterOutcome = InvalidData | RegistrationFailed | UserRegistered

  /** A directory never lists two entries under one name. */
  ghost predicate UniqueNames(slots: seq<Slot>)
  {
    forall i, j :: 0 <= i < j < |slots| ==> slots[i].name != slots[j].name
  }

  function SeparatorToUnderscore(c: char): char
  {
    if c == '@' || c == '.' then '_' else c
  }

  /** `getFolderNameFromEmail`: every `@` and `.` becomes `_`, all else is kept. */
  function FolderName(email: string): (name: string)
    ensures |name| == |email|
    ensures forall i :: 0 <= i < |email| ==>
      name[i] == (if email[i] == '@' || email[i] == '.' then '_' else email[i])
  {
    if email == [] then [] else [SeparatorToUnderscore(email[0])] + FolderName(email[1..])
  }

  /** A folder name never contains `@` or `.`, and deriving it again changes nothing. */
  lemma FolderNameIsNormal(email: string)
    ensures forall i :: 0 <= i < |FolderName(email)| ==> FolderName(email)[i] != '@' && FolderName(email)[i] != '.'
    ensures FolderName(FolderName(email)) == FolderName(email)
  {
  }

  /**
   * The rewrite is not injective: emails that differ only in which of `@`,
   * `.` or `_` stands at one place share one folder (`a.b@x.com` and
   * `a_b@x.com` both become `a_b_x_com`).
   */
  lemma SeparatorsCollide(prefix: string, suffix: string, c1: char, c2: char)
    requires c1 in "@._" && c2 in "@._"
    ensures FolderName(prefix + [c1] + suffix) == FolderName(prefix + [c2] + suffix)
  {
    FolderNameSplit(prefix, c1, suffix);
    FolderNameSplit(prefix, c2, suffix);
  }

  /** The rewrite works character by character, so it splits at any character. */
  lemma {:induction false} FolderNameSplit(p: string, c: char, q: string)
    ensures FolderName(p + [c] + q) == FolderName(p) + [SeparatorToUnderscore(c)] + FolderName(q)
    decreases |p|
  {
    if p == [] {
      assert (p + [c] + q)[1..] == q;
    } else {
      assert (p + [c] + q)[1..] == p[1..] + [c] + q;
      FolderNameSplit(p[1..], c, q);
    }
  }

  /** Emails that differ only in letter case get different folder names. */
  lemma CaseVariantsGetDistinctFolders(e1: string, e2: string)
    requires e1 != e2 && Lower(e1) == Lower(e2)
    ensures FolderName(e1) != FolderName(e2)
  {
  }

  predicate SlashFree(s: string)
  {
    forall k :: 0 <= k < |s| ==> s[k] != '/'
  }

  /** The position of the first `/` in `s`, or `|s|` when there is none. */
  function FirstSlash(s: string): (i: nat)
    ensures i <= |s| && forall k :: 0 <= k < i ==> s[k] != '/'
    ensures i < |s| ==> s[i] == '/'
  {
    if s == [] || s[0] == '/' then 0 else 1 + FirstSlash(s[1..])
  }

  /** `FirstSlash` is the only position with no `/` before it and a `/` (or the end) at it. */
  lemma FirstSlashUnique(s: string, i: nat)
    requires i <= |s| && (forall k :: 0 <= k < i ==> s[k] != '/') && (i < |s| ==> s[i] == '/')
    ensures FirstSlash(s) == i
  {
  }

  /**
   * How `path.join` reads a relative path: the non-empty `/`-separated
   * segments, so that repeated, leading and trailing `/` vanish.
   */
  function Segments(path: string): (segs: seq<string>)
    ensures forall k :: 0 <= k < |segs| ==> segs[k] != "" && SlashFree(segs[k])
    ensures path == "" ==> segs == []
    ensures SlashFree(path) && path != "" ==> segs == [path]
    decreases |path|
  {
    if path == [] then []
    else
      var i := FirstSlash(path);
      assert SlashFree(path) ==> i == |path|;
      var head := if i == 0 then [] else [path[..i]];
      assert i == |path| ==> path[..i] == path;
      if i == |path| then head else head + Segments(path[i + 1..])
  }

  /** A trailing `/` does not change the segments. */
  lemma TrailingSlashSegments(path: string)
    ensures Segments(path + "/") == Segments(path)
  {
    assert path + "/" == path + "/" + "";
    SegmentsSplit(path, "");
  }

  /**
   * A `/` splits a path into the segments on either side of it; with the
   * slash-free case of `Segments` this fixes the segments of every path.
   */
  lemma {:induction false} SegmentsSplit(a: string, b: string)
    ensures Segments(a + "/" + b) == Segments(a) + Segments(b)
    decreases |a|
  {
    var i := FirstSlash(a);
    if i < |a| {
      SegmentsSplit(a[i + 1..], b);
      SplitAtInnerSlash(a, b, i);
    } else {
      SplitAtJoiningSlash(a, b);
    }
  }

  /**
   * `Segments(a + "/" + b)` when the first `/` lies inside `a`: one step of
   * both sides, then the split of what follows that `/`.
   */
  lemma SplitAtInnerSlash(a: string, b: string, i: nat)
    requires i < |a| && FirstSlash(a) == i
    requires Segments(a[i + 1..] + "/" + b) == Segments(a[i + 1..]) + Segments(b)
    ensures Segments(a + "/" + b) == Segments(a) + Segments(b)
  {
    var t, rest := a + "/" + b, a[i + 1..];
    var head := if i == 0 then [] else [a[..i]];
    assert Segments(t) == head + Segments(rest + "/" + b) by {
      JoinSlices(a, b, i);
      FirstSlashJoin(a, b);
      SegmentsAtSlash(t, i);
    }
    assert Segments(a) == head + Segments(rest) by {
      SegmentsAtSlash(a, i);
    }
    Regroup(Segments(t), head, Segments(rest + "/" + b), Segments(a), Segments(rest), Segments(b));
  }

  /** `x = h + (p + q)` and `y = h + p` give `x = y + q`. */
  lemma Regroup<T>(x: seq<T>, h: seq<T>, tail: seq<T>, y: seq<T>, p: seq<T>, q: seq<T>)
    requires x == h + tail && tail == p + q && y == h + p
    ensures x == y + q
  {
  }

  /** `Segments(a + "/" + b)` when `a` has no `/`: `a` (if not empty), then the segments of `b`. */
  lemma SplitAtJoiningSlash(a: string, b: string)
    requires FirstSlash(a) == |a|
    ensures Segments(a + "/" + b) == Segments(a) + Segments(b)
  {
    JoinSlices(a, b, |a|);
    FirstSlashJoin(a, b);
    SegmentsAtSlash(a + "/" + b, |a|);
    SegmentsOfSlashFree(a);
  }

  /** One step of `Segments` at the first `/` of a path. */
  lemma SegmentsAtSlash(path: string, i: nat)
    requires i < |path| && FirstSlash(path) == i
    ensures Segments(path) == (if i == 0 then [] else [path[..i]]) + Segments(path[i + 1..])
  {
    assert path[i] == '/' && !SlashFree(path);
  }

  /** A path with no `/` is one segment, or none when it is empty. */
  lemma SegmentsOfSlashFree(path: string)
    requires FirstSlash(path) == |path|
    ensures Segments(path) == if path == [] then [] else [path[..|path|]]
  {
    assert path[..|path|] == path;
  }

  /** The first `/` of `a + "/" + b` is the first one of `a`, or the joining one. */
  lemma FirstSlashJoin(a: string, b: string)
    ensures FirstSlash(a + "/" + b) == FirstSlash(a)
  {
    var t := a + "/" + b;
    var i := FirstSlash(a);
    assert forall k :: 0 <= k < i ==> t[k] == a[k];
    assert t[i] == '/';
    FirstSlashUnique(t, i);
  }

  /** The pieces of `a + "/" + b` before and after a position `i <= |a|`. */
  lemma JoinSlices(a: string, b: string, i: nat)
    requires i <= |a|
    ensures (a + "/" + b)[..i] == a[..i]
    ensures i < |a| ==> (a + "/" + b)[i + 1..] == a[i + 1..] + "/" + b
    ensures i == |a| ==> (a + "/" + b)[i + 1..] == b
  {
  }

  /**
   * Where `path.join(REGISTER_DATA_PATH, folderName)` points inside the base
   * directory: at the base directory itself (the name is only `/`s), at a
   * folder listed in it, or at a folder nested below the listed folder `top`.
   */
  datatype Destination = BaseItself | TopFolder(name: string) | Nested(top: string)

  /** The destination of the register handler's writes for `email`. */
  function DestinationOf(email: string): (d: Destination)
    ensures d.TopFolder? ==> d.name != "" && SlashFree(d.name)
    ensures d.Nested? ==> d.top != "" && SlashFree(d.top)
    ensures SlashFree(email) && email != "" ==> d == TopFolder(FolderName(email))
  {
    var segs := Segments(FolderName(email));
    if |segs| == 0 then BaseItself
    else if |segs| == 1 then TopFolder(segs[0])
    else Nested(segs[0])
  }

  /**
   * An email `p/q` whose part after the `/` still names a segment (such as
   * `a/b@x.com`) writes below the listed folder named by `p`, never into a
   * listed folder of its own.
   */
  lemma SlashSendsBelowTop(p: string, q: string)
    requires p != "" && SlashFree(p)
    requires Segments(FolderName(q)) != []
    ensures DestinationOf(p + "/" + q) == Nested(FolderName(p))
  {
    var fp, fq := FolderName(p), FolderName(q);
    FolderNameSplit(p, '/', q);
    assert SlashFree(fp);
    SegmentsSplit(fp, fq);
    var segs := Segments(fp + "/" + fq);
    assert segs == [fp] + Segments(fq);
    assert |segs| >= 2 && segs[0] == fp;
  }

  /**
   * `path.join` drops a leading `/` of the folder name: `/a@x.com` writes
   * where `a@x.com` does.
   */
  lemma LeadingSlashSharesDestination(email: string)
    ensures DestinationOf("/" + email) == DestinationOf(email)
  {
    var name := FolderName(email);
    assert FolderName("/" + email) == "/" + name by {
      assert "/" + email == "" + ['/'] + email;
      FolderNameSplit("", '/', email);
      assert FolderName("") + ['/'] + name == "/" + name;
    }
    assert "/" + name == "" + "/" + name;
    SegmentsSplit("", name);
  }

  /**
   * `path.join` drops a trailing `/`, so `a@x.com/` writes where `a@x.com`
   * does: one more way two emails overwrite one another.
   */
  lemma TrailingSlashSharesDestination(email: string)
    ensures DestinationOf(email + "/") == DestinationOf(email)
  {
    var name := FolderName(email);
    assert FolderName(email + "/") == name + "/" by {
      assert email + "/" == email + ['/'] + "";
      FolderNameSplit(email, '/', "");
      assert name + ['/'] + FolderName("") == name + "/";
    }
    TrailingSlashSegments(name);
  }

  /**
   * The test inside the scan of `findUserFolderByEmail`: the folder has a
   * parsed record whose `userEmail` is a string equal to `email` ignoring
   * case. A non-string `userEmail` makes `toLowerCase` throw or yield
   * `undefined`, and the folder is skipped.
   */
  predicate Matches(slot: Slot, email: string)
    ensures Matches(slot, email) ==> slot.data.Some? && "userEmail" in slot.data.value && slot.data.value["userEmail"].Str?
    ensures Matches(slot, email) ==> Lower(slot.data.value["userEmail"].text) == Lower(email)
  {
    && slot.data.Some?
    && "userEmail" in slot.data.value
    && slot.data.value["userEmail"].Str?
    && Lower(slot.data.value["userEmail"].text) == Lower(email)
  }

  /**
   * `findUserFolderByEmail`: `base` is the listing of the base directory,
   * `None` when the directory does not exist. The answer is the first folder,
   * in listing order, whose record matches; `None` when none does.
   */
  method FindUserFolderByEmail(email: string, base: Option<seq<Slot>>) returns (folder: Option<string>)
    ensures base.None? ==> folder.None?
    ensures base.Some? && folder.None? ==> forall i :: 0 <= i < |base.value| ==> !Matches(base.value[i], email)
    ensures folder.Some? ==> base.Some? && (exists i ::
                                              && 0 <= i < |base.value|
                                              && base.value[i].name == folder.value
                                              && Matches(base.value[i], email)
                                              && forall j :: 0 <= j < i ==> !Matches(base.value[j], email))
  {
    if base.None? {
      return None;
    }
    var folders := base.value;
    var i := 0;
    while i < |folders|
      invariant 0 <= i <= |folders|
      invariant forall j :: 0 <= j < i ==> !Matches(folders[j], email)
    {
      var slot := folders[i];
      match slot.data {
        case Some(userData) =>
          if "userEmail" in userData && userData["userEmail"].Str? {
            if Lower(userData["userEmail"].text) == Lower(email) {
              return Some(slot.name);
            }
          }
        case None =>
      }
      i := i + 1;
    }
    return None;
  }

  /** The position of the entry called `name`, if the listing has one. */
  function IndexOf(slots: seq<Slot>, name: string): (r: Option<nat>)
    ensures r.Some? ==> r.value < |slots| && slots[r.value].name == name
    ensures r.Some? ==> forall j :: 0 <= j < r.value ==> slots[j].name != name
    ensures r.None? ==> forall i :: 0 <= i < |slots| ==> slots[i].name != name
  {
    if slots == [] then None
    else if slots[0].name == name then Some(0)
    else match IndexOf(slots[1..], name)
      case None => None
      case Some(i) => Some(i + 1)
  }

  /** When `name` sits at `i` and nowhere before, `IndexOf` finds `i`. */
  lemma IndexOfFirst(slots: seq<Slot>, name: string, i: nat)
    requires i < |slots| && slots[i].name == name
    requires forall j :: 0 <= j < i ==> slots[j].name != name
    ensures IndexOf(slots, name) == Some(i)
  {
  }

  /**
   * The listing after `mkdirSync(..., {recursive: true})` of a listed
   * folder, or after `writeFileSync` of a new file in the base directory:
   * the entry exists afterwards, and at most an empty entry of that name
   * was appended.
   */
  function WithEntry(slots: seq<Slot>, name: string): (r: seq<Slot>)
    ensures IndexOf(r, name).Some?
    ensures |slots| <= |r| <= |slots| + 1 && r[..|slots|] == slots
    ensures forall i :: |slots| <= i < |r| ==> r[i] == Slot(name, None, None)
    ensures IndexOf(slots, name).Some? ==> r == slots
  {
    if IndexOf(slots, name).Some? then slots
    else
      var r := slots + [Slot(name, None, None)];
      IndexOfFirst(r, name, |slots|);
      r
  }

  /**
   * The register handler's treatment of `pngBase64`: a truthy value is split
   * off as the image and deleted from the record; a falsy one stays in it.
   */
  function SplitImage(userData: Record): (r: (Record, Option<Value>))
    ensures forall f :: f != "pngBase64" ==> (f in r.0 <==> f in userData) && (f in r.0 ==> r.0[f] == userData[f])
    ensures r.1.Some? <==> "pngBase64" in userData && Truthy(userData["pngBase64"])
    ensures r.1.Some? ==> "pngBase64" !in r.0 && r.1.value == userData["pngBase64"]
    ensures r.1.None? ==> r.0 == userData
  {
    if "pngBase64" in userData && Truthy(userData["pngBase64"])
    then (userData - {"pngBase64"}, Some(userData["pngBase64"]))
    else (userData, None)
  }

  /**
   * The listing after `json` (and `image`, when present) is written into
   * folder `name`: an existing folder keeps its place and, without a new
   * image, its old `profile.png`; a new folder is appended.
   */
  function Written(slots: seq<Slot>, name: string, json: Record, image: Option<Value>): (r: seq<Slot>)
    ensures IndexOf(r, name).Some? && r[IndexOf(r, name).value].data == Some(json)
    ensures image.Some? ==> r[IndexOf(r, name).value].image == image
    ensures image.None? && IndexOf(slots, name).Some? ==>
      r[IndexOf(r, name).value].image == slots[IndexOf(slots, name).value].image
    ensures |slots| <= |r| <= |slots| + 1
    ensures forall i :: 0 <= i < |slots| ==> r[i].name == slots[i].name
  {
    match IndexOf(slots, name)
    case Some(i) =>
      var r := slots[i := Slot(name, Some(json), if image.Some? then image else slots[i].image)];
      IndexOfFirst(r, name, i);
      r
    case None =>
      var r := slots + [Slot(name, Some(json), image)];
      IndexOfFirst(r, name, |slots|);
      r
  }

  /** `!userData?.userEmail`: the request carries a truthy `userEmail`. */
  predicate HasEmail(userData: Option<Record>)
    ensures HasEmail(userData) ==> userData.Some? && "userEmail" in userData.value
    ensures HasEmail(userData) && userData.value["userEmail"].Str? ==> userData.value["userEmail"].text != ""
  {
    userData.Some? && "userEmail" in userData.value && Truthy(userData.value["userEmail"])
  }

  /** `Buffer.from(userData.pngBase64, 'base64')` is reached and throws. */
  predicate ImageWriteFails(userData: Record)
    ensures ImageWriteFails(userData) ==> "pngBase64" in userData && userData["pngBase64"].NonString?
    ensures "pngBase64" !in userData || userData["pngBase64"].Str? ==> !ImageWriteFails(userData)
  {
    && "pngBase64" in userData
    && Truthy(userData["pngBase64"])
    && userData["pngBase64"].NonString?
    && !userData["pngBase64"].bufferable
  }

  /** The register handler's answer for the request's `userData`. */
  function RegisterOutcomeOf(userData: Option<Record>): (r: RegisterOutcome)
    ensures r == InvalidData <==> !HasEmail(userData)
    ensures r == UserRegistered <==>
      HasEmail(userData) && userData.value["userEmail"].Str? && !ImageWriteFails(userData.value)
  {
    if !HasEmail(userData) then InvalidData
    else if userData.value["userEmail"].NonString? || ImageWriteFails(userData.value) then RegistrationFailed
    else UserRegistered
  }

  /** The `mkdirSync` step on the listing. */
  function MkdirEffect(slots: seq<Slot>, dest: Destination): (r: seq<Slot>)
    ensures |slots| <= |r| <= |slots| + 1 && r[..|slots|] == slots
    ensures forall i :: |slots| <= i < |r| ==> r[i].data.None? && r[i].image.None?
    ensures dest.TopFolder? ==> IndexOf(r, dest.name).Some?
    ensures dest.Nested? ==> IndexOf(r, dest.top).Some?
    ensures dest.BaseItself? ==> r == slots
  {
    match dest
    case TopFolder(name) => WithEntry(slots, name)
    case Nested(top) => WithEntry(slots, top)
    case BaseItself => slots
  }

  /**
   * The listing after the handler's file steps for record `rec` at `dest`:
   * only the `mkdirSync` step when the image cannot be decoded; otherwise
   * the record (and image) written at the destination. Writes below a
   * nested folder are outside the listing; writes into the base directory
   * itself add the files `profile.png` and `userdata.json` as entries
   * without a record.
   */
  function Stored(slots: seq<Slot>, dest: Destination, rec: Record): (r: seq<Slot>)
    ensures |slots| <= |r| <= |slots| + 2
    ensures forall i :: 0 <= i < |slots| ==> r[i].name == slots[i].name
  {
    if ImageWriteFails(rec) then MkdirEffect(slots, dest)
    else
      var (json, image) := SplitImage(rec);
      match dest
      case TopFolder(name) => Written(slots, name, json, image)
      case Nested(top) => WithEntry(slots, top)
      case BaseItself =>
        WithEntry(if image.Some? then WithEntry(slots, "profile.png") else slots, "userdata.json")
  }

  /**
   * The listing after the register handler: unchanged for a refused request
   * or a non-string email, else `Stored` at the email's destination.
   */
  function AfterRegister(slots: seq<Slot>, userData: Option<Record>): (r: seq<Slot>)
    ensures |slots| <= |r| <= |slots| + 2
    ensures forall i :: 0 <= i < |slots| ==> r[i].name == slots[i].name
    ensures RegisterOutcomeOf(userData) == InvalidData ==> r == slots
  {
    if !HasEmail(userData) || userData.value["userEmail"].NonString? then slots
    else Stored(slots, DestinationOf(userData.value["userEmail"].text), userData.value)
  }

  /** The email a successful registration was keyed by. */
  function RegisteredEmail(userData: Option<Record>): string
    requires RegisterOutcomeOf(userData) == UserRegistered
  {
    userData.value["userEmail"].text
  }

  /** A successful registration whose destination is a listed folder. */
  predicate Listed(userData: Option<Record>)
  {
    RegisterOutcomeOf(userData) == UserRegistered && DestinationOf(RegisteredEmail(userData)).TopFolder?
  }

  /** The listed folder a registration writes into. */
  function RegisteredFolder(userData: Option<Record>): string
    requires Listed(userData)
  {
    DestinationOf(RegisteredEmail(userData)).name
  }

  /**
   * Round trip: after a successful registration into a listed folder, that
   * folder holds the submitted record, the same in every field except that
   * a truthy `pngBase64` is gone; a truthy `pngBase64` is that folder's image.
   */
  lemma RegisterRoundTrip(slots: seq<Slot>, userData: Option<Record>)
    requires Listed(userData)
    ensures var after := AfterRegister(slots, userData);
      var name := RegisteredFolder(userData);
      var rec := userData.value;
      var png := "pngBase64" in rec && Truthy(rec["pngBase64"]);
      && IndexOf(after, name).Some?
      && after[IndexOf(after, name).value].data.Some?
      && var stored := after[IndexOf(after, name).value].data.value;
      && (forall f :: f != "pngBase64" ==> (f in stored <==> f in rec) && (f in stored ==> stored[f] == rec[f]))
      && ("pngBase64" in stored <==> "pngBase64" in rec && !png)
      && (png ==> after[IndexOf(after, name).value].image == Some(rec["pngBase64"]))
      && stored == (if png then rec - {"pngBase64"} else rec)
  {
  }

  /**
   * Writing a folder leaves every other entry where it was and as it was,
   * appends at most one folder, and keeps entry names unique.
   */
  lemma WrittenKeepsOthers(slots: seq<Slot>, name: string, json: Record, image: Option<Value>)
    requires UniqueNames(slots)
    ensures var after := Written(slots, name, json, image);
      && UniqueNames(after)
      && (forall i :: 0 <= i < |slots| && slots[i].name != name ==> after[i] == slots[i])
      && (|after| == |slots| + 1 <==> forall i :: 0 <= i < |slots| ==> slots[i].name != name)
  {
  }

  /** A registration into a listed folder can be found again by its email, in any case spelling. */
  lemma RegisteredUserIsFound(slots: seq<Slot>, userData: Option<Record>, query: string)
    requires Listed(userData)
    requires Lower(query) == Lower(RegisteredEmail(userData))
    ensures exists i :: 0 <= i < |AfterRegister(slots, userData)| && Matches(AfterRegister(slots, userData)[i], query)
  {
    RegisterRoundTrip(slots, userData);
    var after := AfterRegister(slots, userData);
    var i := IndexOf(after, RegisteredFolder(userData)).value;
    assert Matches(after[i], query);
  }

  /**
   * A registration whose folder name contains a `/` between other
   * characters (`a/b@x.com` goes to `a/b_x_com`), or consists of `/` only,
   * answers success but adds no record the scan can see: every entry that
   * matches afterwards was already there, unchanged.
   */
  lemma UnlistedUserIsLost(slots: seq<Slot>, userData: Option<Record>, query: string)
    requires RegisterOutcomeOf(userData) == UserRegistered
    requires !Listed(userData)
    ensures var after := AfterRegister(slots, userData);
      forall i :: 0 <= i < |after| && Matches(after[i], query) ==> i < |slots| && after[i] == slots[i]
  {
    var after := AfterRegister(slots, userData);
    forall i | 0 <= i < |after| && Matches(after[i], query)
      ensures i < |slots| && after[i] == slots[i]
    {
      if DestinationOf(RegisteredEmail(userData)).BaseItself? && "pngBase64" in userData.value && Truthy(userData.value["pngBase64"]) {
        var mid := WithEntry(slots, "profile.png");
        assert after == WithEntry(mid, "userdata.json");
        assert i < |mid| && after[i] == mid[i];
      }
    }
  }

  /** A refused request, or a non-string email whose rewrite throws, writes nothing. */
  lemma RefusedRegistrationWritesNothing(slots: seq<Slot>, userData: Option<Record>)
    requires !HasEmail(userData) || userData.value["userEmail"].NonString?
    ensures RegisterOutcomeOf(userData) != UserRegistered
    ensures AfterRegister(slots, userData) == slots
  {
  }

  /**
   * A truthy `pngBase64` that `Buffer.from` rejects fails the request after
   * `mkdirSync`: no record or image is written, and a listed destination
   * folder is left behind (empty when it is new).
   */
  lemma UndecodableImageFails(slots: seq<Slot>, userData: Option<Record>, query: string)
    requires HasEmail(userData) && userData.value["userEmail"].Str?
    requires ImageWriteFails(userData.value)
    ensures RegisterOutcomeOf(userData) == RegistrationFailed
    ensures var after := AfterRegister(slots, userData);
      && after[..|slots|] == slots
      && (forall i :: |slots| <= i < |after| ==> after[i].data.None? && after[i].image.None?)
      && (DestinationOf(userData.value["userEmail"].text).TopFolder? ==>
            IndexOf(after, DestinationOf(userData.value["userEmail"].text).name).Some?)
  {
  }

  /**
   * Two emails with the same listed folder overwrite one another: after both
   * register, that folder holds only the second record, which the first
   * email no longer matches unless both lower-case alike; and no entry is added.
   */
  lemma SameFolderOverwrites(slots: seq<Slot>, u1: Option<Record>, u2: Option<Record>)
    requires Listed(u1) && Listed(u2)
    requires RegisteredFolder(u1) == RegisteredFolder(u2)
    ensures var mid := AfterRegister(slots, u1);
      var after := AfterRegister(mid, u2);
      var name := RegisteredFolder(u2);
      && |after| == |mid|
      && IndexOf(after, name) == IndexOf(mid, name)
      && after[IndexOf(after, name).value].data == Some(SplitImage(u2.value).0)
      && (Lower(RegisteredEmail(u1)) != Lower(RegisteredEmail(u2)) ==> !Matches(after[IndexOf(after, name).value], RegisteredEmail(u1)))
  {
    var name := RegisteredFolder(u2);
    var mid := AfterRegister(slots, u1);
    RegisterRoundTrip(slots, u1);
    var i := IndexOf(mid, name).value;
    var after := AfterRegister(mid, u2);
    IndexOfFirst(after, name, i);
  }

  /**
   * Registering again without a picture keeps the picture of the earlier
   * registration in that folder: the folder is reused, only
   * `userdata.json` is rewritten.
   */
  lemma StaleImageSurvives(slots: seq<Slot>, u1: Option<Record>, u2: Option<Record>)
    requires Listed(u1) && Listed(u2)
    requires RegisteredFolder(u1) == RegisteredFolder(u2)
    requires "pngBase64" in u1.value && Truthy(u1.value["pngBase64"])
    requires "pngBase64" !in u2.value || !Truthy(u2.value["pngBase64"])
    ensures var after := AfterRegister(AfterRegister(slots, u1), u2);
      var name := RegisteredFolder(u2);
      && IndexOf(after, name).Some?
      && after[IndexOf(after, name).value].image == Some(u1.value["pngBase64"])
  {
    var name := RegisteredFolder(u2);
    var mid := AfterRegister(slots, u1);
    RegisterRoundTrip(slots, u1);
    var i := IndexOf(mid, name).value;
    var after := AfterRegister(mid, u2);
    IndexOfFirst(after, name, i);
  }

  /**
   * The folder name keeps the email's case while lookup ignores it: when
   * `A@x.com` and then `a@x.com` register, two folders hold records that
   * both match the same email.
   */
  lemma CaseVariantsFork(slots: seq<Slot>, u1: Option<Record>, u2: Option<Record>)
    requires UniqueNames(slots)
    requires RegisterOutcomeOf(u1) == UserRegistered && RegisterOutcomeOf(u2) == UserRegistered
    requires RegisteredEmail(u1) != RegisteredEmail(u2)
    requires Lower(RegisteredEmail(u1)) == Lower(RegisteredEmail(u2))
    requires SlashFree(RegisteredEmail(u1)) && SlashFree(RegisteredEmail(u2))
    ensures var after := AfterRegister(AfterRegister(slots, u1), u2);
      exists i, j :: 0 <= i < j < |after| && Matches(after[i], RegisteredEmail(u2)) && Matches(after[j], RegisteredEmail(u2))
  {
    var e1, e2 := RegisteredEmail(u1), RegisteredEmail(u2);
    CaseVariantsGetDistinctFolders(e1, e2);
    var n1, n2 := FolderName(e1), FolderName(e2);
    var mid := AfterRegister(slots, u1);
    assert IndexOf(mid, n1).Some? && Matches(mid[IndexOf(mid, n1).value], e2) && UniqueNames(mid) by {
      RegisterRoundTrip(slots, u1);
      WrittenKeepsOthers(slots, n1, SplitImage(u1.value).0, SplitImage(u1.value).1);
    }
    var i := IndexOf(mid, n1).value;
    var after := AfterRegister(mid, u2);
    assert IndexOf(after, n2).Some? && Matches(after[IndexOf(after, n2).value], e2) by {
      RegisterRoundTrip(mid, u2);
    }
    var j := IndexOf(after, n2).value;
    assert after[i] == mid[i] by {
      WrittenKeepsOthers(mid, n2, SplitImage(u2.value).0, SplitImage(u2.value).1);
    }
    assert i != j;
    if i < j {
      assert 0 <= i < j < |after| && Matches(after[i], e2) && Matches(after[j], e2);
    } else {
      assert 0 <= j < i < |after| && Matches(after[j], e2) && Matches(after[i], e2);
    }
  }

  /** The `RegisterData` base directory and the register handler that writes into it. */
  class RegisterData {
    var slots: seq<Slot>

    ghost predicate Valid()
      reads this
    {
      UniqueNames(slots)
    }

    /**
     * The directory as the server finds it at start-up: the existing
     * listing, or an empty one when it had to be created.
     */
    constructor (initial: seq<Slot>)
      requires UniqueNames(initial)
      ensures Valid() && slots == initial
    {
      slots := initial;
    }

    /** `mkdirSync(..., {recursive: true})` of a listed folder, or `writeFileSync` of a file in the base directory. */
    method AddEntry(name: string) returns (i: nat)
      requires Valid()
      modifies this
      ensures Valid()
      ensures slots == WithEntry(old(slots), name)
      ensures i < |slots| && IndexOf(slots, name) == Some(i)
    {
      match IndexOf(slots, name) {
        case Some(k) =>
          i := k;
        case None =>
          slots := slots + [Slot(name, None, None)];
          i := |slots| - 1;
          IndexOfFirst(slots, name, i);
      }
    }

    /** `writeFileSync` of `profile.png` in folder `i`. */
    method WriteImage(i: nat, png: Value)
      requires Valid() && i < |slots|
      modifies this
      ensures Valid()
      ensures slots == old(slots)[i := old(slots)[i].(image := Some(png))]
    {
      slots := slots[i := slots[i].(image := Some(png))];
    }

    /** `writeFileSync` of `userdata.json` in folder `i`. */
    method WriteJson(i: nat, json: Record)
      requires Valid() && i < |slots|
      modifies this
      ensures Valid()
      ensures slots == old(slots)[i := old(slots)[i].(data := Some(json))]
    {
      slots := slots[i := slots[i].(data := Some(json))];
    }

    /**
     * The register handler: refuse a missing or falsy `userEmail` before any
     * write; a non-string one makes the folder-name rewrite throw, also
     * before any write; otherwise create or reuse the destination, decode
     * and write a truthy `pngBase64` (failing when it cannot be decoded),
     * then write the record.
     */
    method Register(userData: Option<Record>) returns (r: RegisterOutcome)
      requires Valid()
      modifies this
      ensures Valid()
      ensures r == RegisterOutcomeOf(userData)
      ensures slots == AfterRegister(old(slots), userData)
    {
      if userData.None? || "userEmail" !in userData.value || !Truthy(userData.value["userEmail"]) {
        return InvalidData;
      }
      var rec := userData.value;
      if rec["userEmail"].NonString? {
        return RegistrationFailed;
      }
      var ok := Store(DestinationOf(rec["userEmail"].text), rec);
      r := if ok then UserRegistered else RegistrationFailed;
    }

    /**
     * The handler's file steps: create or reuse the destination, decode and
     * write a truthy `pngBase64` (failing when it cannot be decoded), then
     * write the record.
     */
    method Store(dest: Destination, rec: Record) returns (ok: bool)
      requires Valid()
      modifies this
      ensures Valid()
      ensures ok == !ImageWriteFails(rec)
      ensures slots == Stored(old(slots), dest, rec)
    {
      match dest {
        case TopFolder(name) => ok := StoreInFolder(name, rec);
        case Nested(top) => ok := StoreBelow(top, rec);
        case BaseItself => ok := StoreInBase(rec);
      }
    }

    /** The file steps when the destination is the listed folder `name`. */
    method StoreInFolder(name: string, rec: Record) returns (ok: bool)
      requires Valid()
      modifies this
      ensures Valid()
      ensures ok == !ImageWriteFails(rec)
      ensures slots == Stored(old(slots), TopFolder(name), rec)
    {
      WrittenKeepsOthers(slots, name, SplitImage(rec).0, SplitImage(rec).1);
      var i := AddEntry(name);
      var json := rec;
      if "pngBase64" in rec && Truthy(rec["pngBase64"]) {
        var png := rec["pngBase64"];
        if png.NonString? && !png.bufferable {
          return false;
        }
        WriteImage(i, png);
        json := rec - {"pngBase64"};
      }
      WriteJson(i, json);
      ok := true;
    }

    /** The file steps when the destination is nested below the listed folder `top`: only its creation shows. */
    method StoreBelow(top: string, rec: Record) returns (ok: bool)
      requires Valid()
      modifies this
      ensures Valid()
      ensures ok == !ImageWriteFails(rec)
      ensures slots == Stored(old(slots), Nested(top), rec)
    {
      var _ := AddEntry(top);
      if "pngBase64" in rec && Truthy(rec["pngBase64"]) {
        var png := rec["pngBase64"];
        if png.NonString? && !png.bufferable {
          return false;
        }
      }
      ok := true;
    }

    /** The file steps when the destination is the base directory itself: the files become entries. */
    method StoreInBase(rec: Record) returns (ok: bool)
      requires Valid()
      modifies this
      ensures Valid()
      ensures ok == !ImageWriteFails(rec)
      ensures slots == Stored(old(slots), BaseItself, rec)
    {
      if "pngBase64" in rec && Truthy(rec["pngBase64"]) {
        var png := rec["pngBase64"];
        if png.NonString? && !png.bufferable {
          return false;
        }
        var _ := AddEntry("profile.png");
      }
      var _ := AddEntry("userdata.json");
      ok := true;
    }
  }

}

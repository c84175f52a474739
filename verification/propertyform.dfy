/** The admin property form's client-side state: the accumulated new image files,
    the list of stored images flagged for deletion, the submit guard and payload
    order, the locality `titleCase`, the quick owner validation and the amenity
    checkbox restore. */
module PropertyForm {
  import opened Wrappers
  import opened Records
  import opened Text
  import Seqs
  import Media

  // ---------------------------------------------------------------------------
  // New image files

  /** A file picked in the browser: its name and an identifier of its contents. */
  datatype Picked = Picked(name: string, blob: nat)

  function Name(f: Picked): string { f.name }

  lemma KeysConcat<T, K>(a: seq<T>, b: seq<T>, key: T -> K)
    ensures Seqs.Keys(a + b, key) == Seqs.Keys(a, key) + Seqs.Keys(b, key)
  {
    var ab := a + b;
    forall k | k in Seqs.Keys(ab, key) ensures k in Seqs.Keys(a, key) + Seqs.Keys(b, key) {
      var i :| 0 <= i < |ab| && key(ab[i]) == k;
      if i >= |a| {
        assert b[i - |a|] == ab[i];
      }
    }
    forall k | k in Seqs.Keys(b, key) ensures k in Seqs.Keys(ab, key) {
      var i :| 0 <= i < |b| && key(b[i]) == k;
      assert ab[|a| + i] == b[i];
    }
    assert forall i | 0 <= i < |a| :: ab[i] == a[i];
  }

  /** `handleFileSelection`: each picked file is appended unless a file of the same
      name is already accumulated (counting those appended earlier in the same pick). */
  method HandleFileSelection(acc: seq<Picked>, picked: seq<Picked>) returns (r: seq<Picked>)
    ensures r == acc + Seqs.DedupFrom(picked, Name, Seqs.Keys(acc, Name))
    ensures Seqs.DistinctKeys(acc, Name) ==> Seqs.DistinctKeys(r, Name)
    ensures Seqs.Keys(r, Name) == Seqs.Keys(acc, Name) + Seqs.Keys(picked, Name)
  {
    ghost var target := acc + Seqs.DedupFrom(picked, Name, Seqs.Keys(acc, Name));
    r := acc;
    var i := 0;
    while i < |picked|
      invariant 0 <= i <= |picked|
      invariant r + Seqs.DedupFrom(picked[i..], Name, Seqs.Keys(r, Name)) == target
    {
      var x := picked[i];
      SelectionStep(r, picked, i);
      if x.name !in Seqs.Keys(r, Name) {
        r := r + [x];
      }
      i := i + 1;
    }
    assert picked[i..] == [];
    var d := Seqs.DedupFrom(picked, Name, Seqs.Keys(acc, Name));
    KeysConcat(acc, d, Name);
    if Seqs.DistinctKeys(acc, Name) {
      AppendDistinct(acc, d);
    }
  }

  /** One pick of the loop: a file whose name is accumulated is skipped, any other
      is appended, and what remains to be added is unchanged. */
  lemma SelectionStep(r: seq<Picked>, picked: seq<Picked>, i: nat)
    requires i < |picked|
    ensures var x := picked[i];
      var r' := if x.name in Seqs.Keys(r, Name) then r else r + [x];
      r' + Seqs.DedupFrom(picked[i + 1..], Name, Seqs.Keys(r', Name))
      == r + Seqs.DedupFrom(picked[i..], Name, Seqs.Keys(r, Name))
  {
    var x := picked[i];
    DedupFromStep(picked[i..], Seqs.Keys(r, Name));
    assert picked[i..][0] == x && picked[i..][1..] == picked[i + 1..];
    if x.name !in Seqs.Keys(r, Name) {
      KeysSnoc(r, x);
    }
  }

  lemma DedupFromStep(s: seq<Picked>, seen: set<string>)
    requires |s| > 0
    ensures Seqs.DedupFrom(s, Name, seen) == if s[0].name in seen then Seqs.DedupFrom(s[1..], Name, seen)
      else [s[0]] + Seqs.DedupFrom(s[1..], Name, seen + {s[0].name})
  {
  }

  lemma KeysSnoc(r: seq<Picked>, x: Picked)
    ensures Seqs.Keys(r + [x], Name) == Seqs.Keys(r, Name) + {x.name}
  {
    KeysConcat(r, [x], Name);
    Seqs.KeysCons([x], Name);
    assert [x][1..] == [];
    assert Seqs.Keys([x][1..], Name) == {};
  }

  lemma AppendDistinct(acc: seq<Picked>, d: seq<Picked>)
    requires Seqs.DistinctKeys(acc, Name) && Seqs.DistinctKeys(d, Name)
    requires forall i | 0 <= i < |d| :: d[i].name !in Seqs.Keys(acc, Name)
    ensures Seqs.DistinctKeys(acc + d, Name)
  {
    var r := acc + d;
    forall i, j | 0 <= i < j < |r| ensures r[i].name != r[j].name {
      if j >= |acc| {
        assert r[j] == d[j - |acc|];
        if i >= |acc| {
          assert r[i] == d[i - |acc|];
        } else {
          assert r[i].name in Seqs.Keys(acc, Name);
        }
      }
    }
  }

  /** Picking only files whose names are already accumulated adds nothing. */
  lemma ReselectingAddsNothing(acc: seq<Picked>, picked: seq<Picked>)
    requires Seqs.Keys(picked, Name) <= Seqs.Keys(acc, Name)
    ensures Seqs.DedupFrom(picked, Name, Seqs.Keys(acc, Name)) == []
  {
  }

  function NameIsNot(name: string): Picked -> bool
  {
    (f: Picked) => f.name != name
  }

  /** Deleting the thumbnail of a new file: every accumulated file of that name goes. */
  function RemoveNewFile(acc: seq<Picked>, name: string): (r: seq<Picked>)
    ensures forall f | f in r :: f.name != name
    ensures forall f | f in acc && f.name != name :: f in r
    ensures Seqs.IsSubseq(r, acc)
  {
    Seqs.FilterIsSubseq(acc, NameIsNot(name));
    Seqs.Filter(acc, NameIsNot(name))
  }

  /** Picking a new file and then deleting its thumbnail restores the list. */
  lemma {:induction false} PickThenRemove(acc: seq<Picked>, x: Picked)
    requires x.name !in Seqs.Keys(acc, Name)
    ensures RemoveNewFile(acc + Seqs.DedupFrom([x], Name, Seqs.Keys(acc, Name)), x.name) == acc
  {
    assert Seqs.DedupFrom([x], Name, Seqs.Keys(acc, Name)) == [x] by {
      assert [x][1..] == [];
    }
    Seqs.FilterConcat(acc, [x], NameIsNot(x.name));
    assert [x][1..] == [];
    KeepsAll(acc, x.name);
  }

  lemma KeepsAll(acc: seq<Picked>, name: string)
    requires name !in Seqs.Keys(acc, Name)
    ensures Seqs.Filter(acc, NameIsNot(name)) == acc
  {
    forall i | 0 <= i < |acc| ensures NameIsNot(name)(acc[i]) {
      assert Name(acc[i]) in Seqs.Keys(acc, Name);
    }
    Seqs.FilterAll(acc, NameIsNot(name));
  }

  // ---------------------------------------------------------------------------
  // Stored images flagged for deletion

  /** The delete button of a stored image: the URL is added to `filesToDelete` unless
      it is already listed. */
  function FlagForDeletion(list: seq<string>, url: string): (r: seq<string>)
    ensures url in r
    ensures list <= r && |r| <= |list| + 1
    ensures Seqs.Distinct(list) ==> Seqs.Distinct(r)
  {
    if url in list then list else list + [url]
  }

  /** The list after a sequence of clicks, starting from the empty hidden field. */
  function FlagAll(clicks: seq<string>): seq<string>
  {
    if |clicks| == 0 then [] else FlagForDeletion(FlagAll(clicks[..|clicks| - 1]), clicks[|clicks| - 1])
  }

  function Same(s: string): string { s }

  /** Every URL once, in the order it was first flagged. */
  lemma {:induction false} FlagAllIsDedup(clicks: seq<string>)
    ensures FlagAll(clicks) == Seqs.DedupBy(clicks, Same)
    ensures Seqs.Distinct(FlagAll(clicks))
  {
    Seqs.DedupByIsKeepFirst(clicks, Same);
    if |clicks| > 0 {
      var init := clicks[..|clicks| - 1];
      FlagAllIsDedup(init);
      Seqs.DedupByIsKeepFirst(init, Same);
      var kept := FlagAll(init);
      assert Seqs.Keys(kept, Same) == Seqs.Keys(init, Same);
      assert forall u :: u in kept <==> u in Seqs.Keys(kept, Same) by {
        forall u ensures u in kept <==> u in Seqs.Keys(kept, Same) {
          if u in kept {
            var i :| 0 <= i < |kept| && kept[i] == u;
            assert Same(kept[i]) == u;
          }
        }
      }
    }
  }

  // ---------------------------------------------------------------------------
  // Submitting the images

  /** A thumbnail in the preview, in on-screen order: a stored image by URL, or a new
      file by name. */
  datatype Thumb = Existing(url: string) | Fresh(fileName: string)

  /** What the submit handler sends about images: `existingImageUrlsToKeep` and the
      `images` files, each in preview order. */
  datatype ImagePayload = ImagePayload(keep: seq<string>, files: seq<Picked>)

  function ExistingUrls(preview: seq<Thumb>): (r: seq<string>)
    ensures |r| <= |preview|
    ensures forall u | u in r :: Existing(u) in preview
    ensures forall t | t in preview && t.Existing? :: t.url in r
  {
    if |preview| == 0 then []
    else (if preview[0].Existing? then [preview[0].url] else []) + ExistingUrls(preview[1..])
  }

  /** `accumulatedFiles.find(f => f.name === name)` */
  function FindFile(acc: seq<Picked>, name: string): (r: Option<Picked>)
    ensures r.Some? ==> r.value in acc && r.value.name == name
    ensures r.None? <==> name !in Seqs.Keys(acc, Name)
  {
    if |acc| == 0 then None
    else if acc[0].name == name then Some(acc[0])
    else
      Seqs.KeysCons(acc, Name);
      FindFile(acc[1..], name)
  }

  function FreshNames(preview: seq<Thumb>): (r: seq<string>)
    ensures forall n | n in r :: Fresh(n) in preview
  {
    if |preview| == 0 then []
    else (if preview[0].Fresh? then [preview[0].fileName] else []) + FreshNames(preview[1..])
  }

  /** The new files in preview order; a thumbnail whose file is no longer accumulated
      sends nothing. */
  function NewFileOrder(acc: seq<Picked>, names: seq<string>): (r: seq<Picked>)
    ensures |r| <= |names|
    ensures forall f | f in r :: f in acc && f.name in names
  {
    if |names| == 0 then []
    else
      match FindFile(acc, names[0])
      case Some(f) => [f] + NewFileOrder(acc, names[1..])
      case None => NewFileOrder(acc, names[1..])
  }

  /** The submit handler's image part: refused when there is neither a new file nor a
      stored image; otherwise the kept URLs and the new files in preview order. */
  function SubmitImages(acc: seq<Picked>, preview: seq<Thumb>): (r: Option<ImagePayload>)
    ensures r.None? <==> |acc| == 0 && |ExistingUrls(preview)| == 0
    ensures r.Some? ==> forall u | u in r.value.keep :: Existing(u) in preview
    ensures r.Some? ==> forall t | t in preview && t.Existing? :: t.url in r.value.keep
    ensures r.Some? ==> forall f | f in r.value.files :: f in acc && Fresh(f.name) in preview
  {
    if |acc| == 0 && |ExistingUrls(preview)| == 0 then None
    else Some(ImagePayload(ExistingUrls(preview), NewFileOrder(acc, FreshNames(preview))))
  }

  predicate IsExisting(t: Thumb) { t.Existing? }

  predicate IsFresh(t: Thumb) { t.Fresh? }

  /** The data attribute a thumbnail carries: `data-existing-url` or `data-file-name`. */
  function Attr(t: Thumb): string
  {
    match t
    case Existing(u) => u
    case Fresh(n) => n
  }

  /** The name is one of an accumulated file. */
  function Accumulated(acc: seq<Picked>): string -> bool
  {
    n => n in Seqs.Keys(acc, Name)
  }

  /** The kept URLs are the stored thumbnails' URLs in preview order. */
  lemma {:induction false} ExistingUrlsSpec(preview: seq<Thumb>)
    ensures ExistingUrls(preview) == Seqs.Map(Seqs.Filter(preview, IsExisting), Attr)
  {
    if |preview| > 0 {
      ExistingUrlsSpec(preview[1..]);
      Seqs.MapConcat(if IsExisting(preview[0]) then [preview[0]] else [], Seqs.Filter(preview[1..], IsExisting), Attr);
    }
  }

  /** The new thumbnails' file names, in preview order. */
  lemma {:induction false} FreshNamesSpec(preview: seq<Thumb>)
    ensures FreshNames(preview) == Seqs.Map(Seqs.Filter(preview, IsFresh), Attr)
  {
    if |preview| > 0 {
      FreshNamesSpec(preview[1..]);
      Seqs.MapConcat(if IsFresh(preview[0]) then [preview[0]] else [], Seqs.Filter(preview[1..], IsFresh), Attr);
    }
  }

  /** The files sent are named by the thumbnails whose name is accumulated, in
      thumbnail order. */
  lemma {:induction false} NewFileOrderNames(acc: seq<Picked>, names: seq<string>)
    ensures Seqs.Map(NewFileOrder(acc, names), Name) == Seqs.Filter(names, Accumulated(acc))
  {
    if |names| > 0 {
      NewFileOrderNames(acc, names[1..]);
      var rest := NewFileOrder(acc, names[1..]);
      match FindFile(acc, names[0])
      case Some(f) =>
        Seqs.MapConcat([f], rest, Name);
      case None =>
    }
  }

  /** Each file sent is the first accumulated file of its name. */
  lemma {:induction false} NewFileOrderFirst(acc: seq<Picked>, names: seq<string>)
    ensures forall f | f in NewFileOrder(acc, names) :: FindFile(acc, f.name) == Some(f)
  {
    if |names| > 0 {
      NewFileOrderFirst(acc, names[1..]);
    }
  }

  /** The payload in full: the stored thumbnails' URLs in preview order, and for the
      new thumbnails whose name is accumulated, in preview order, the first
      accumulated file of that name. */
  lemma SubmitImagesOrder(acc: seq<Picked>, preview: seq<Thumb>)
    ensures SubmitImages(acc, preview).Some? ==>
      var r := SubmitImages(acc, preview).value;
      && r.keep == Seqs.Map(Seqs.Filter(preview, IsExisting), Attr)
      && Seqs.Map(r.files, Name) == Seqs.Filter(Seqs.Map(Seqs.Filter(preview, IsFresh), Attr), Accumulated(acc))
      && forall f | f in r.files :: FindFile(acc, f.name) == Some(f)
  {
    ExistingUrlsSpec(preview);
    FreshNamesSpec(preview);
    NewFileOrderNames(acc, FreshNames(preview));
    NewFileOrderFirst(acc, FreshNames(preview));
  }

  /** When the new thumbnails show exactly the accumulated files in order, exactly
      those files are sent, in that order. */
  lemma {:induction false} NewFilesInAccumulatedOrder(acc: seq<Picked>, all: seq<Picked>)
    requires Seqs.DistinctKeys(all, Name)
    requires forall f | f in acc :: f in all
    ensures NewFileOrder(all, seq(|acc|, i requires 0 <= i < |acc| => acc[i].name)) == acc
  {
    var names := seq(|acc|, i requires 0 <= i < |acc| => acc[i].name);
    if |acc| > 0 {
      FindDistinct(all, acc[0]);
      NewFilesInAccumulatedOrder(acc[1..], all);
      assert names[1..] == seq(|acc[1..]|, i requires 0 <= i < |acc[1..]| => acc[1..][i].name);
      assert acc == [acc[0]] + acc[1..];
    }
  }

  lemma {:induction false} FindDistinct(all: seq<Picked>, f: Picked)
    requires Seqs.DistinctKeys(all, Name)
    requires f in all
    ensures FindFile(all, f.name) == Some(f)
  {
    if all[0] != f {
      assert Seqs.DistinctKeys(all[1..], Name) by {
        forall i, j | 0 <= i < j < |all[1..]| ensures all[1..][i].name != all[1..][j].name {
          assert all[1..][i] == all[i + 1] && all[1..][j] == all[j + 1];
        }
      }
      var k :| 0 <= k < |all| && all[k] == f;
      assert all[0].name != f.name;
      FindDistinct(all[1..], f);
    }
  }

  // ---------------------------------------------------------------------------
  // titleCase

  /** The index of the first space, or the length when there is none. */
  function FirstSpace(s: string): (r: nat)
    ensures r <= |s|
  {
    if |s| == 0 || s[0] == ' ' then 0 else 1 + FirstSpace(s[1..])
  }

  lemma {:induction false} FirstSpaceSpec(s: string)
    ensures var r := FirstSpace(s);
      (r < |s| ==> s[r] == ' ') && forall k | 0 <= k < r :: s[k] != ' '
  {
    if |s| > 0 && s[0] != ' ' {
      FirstSpaceSpec(s[1..]);
    }
  }

  /** `str.split(' ')`: the pieces between single spaces, empty ones included. */
  function Words(s: string): (r: seq<string>)
    ensures |r| >= 1
    decreases |s|
  {
    var i := FirstSpace(s);
    if i == |s| then [s] else [s[..i]] + Words(s[i + 1..])
  }

  /** `word.charAt(0).toUpperCase() + word.slice(1)` */
  function Capitalize(w: string): (r: string)
    ensures |r| == |w|
    ensures |w| > 0 ==> r[0] == Upper(w[0]) && r[1..] == w[1..]
  {
    if |w| == 0 then "" else [Upper(w[0])] + w[1..]
  }

  /** `s.split(' ').map(Capitalize).join(' ')`, word by word. */
  function CapitalizeWords(s: string): string
    decreases |s|
  {
    var i := FirstSpace(s);
    if i == |s| then Capitalize(s) else Capitalize(s[..i]) + " " + CapitalizeWords(s[i + 1..])
  }

  /** A character begins a word when it is first or follows a space. */
  predicate StartsWord(s: string, i: int)
    requires 0 <= i < |s|
  {
    i == 0 || s[i - 1] == ' '
  }

  /** `r` is `s` with exactly the characters that begin a word uppercased. */
  predicate WordStartsUpper(s: string, r: string)
  {
    |r| == |s| && forall k | 0 <= k < |s| :: r[k] == if StartsWord(s, k) then Upper(s[k]) else s[k]
  }

  /** Capitalizing each space-separated word uppercases exactly the characters that
      begin a word. */
  lemma {:induction false} CapitalizeWordsSpec(s: string)
    ensures WordStartsUpper(s, CapitalizeWords(s))
    decreases |s|
  {
    var i := FirstSpace(s);
    FirstSpaceSpec(s);
    if i == |s| {
      CapitalizeOne(s);
    } else {
      CapitalizeWordsSpec(s[i + 1..]);
      CapitalizeSplit(s, i, CapitalizeWords(s[i + 1..]));
    }
  }

  /** A string without spaces is one word: only its first character is uppercased. */
  lemma CapitalizeOne(s: string)
    requires forall k | 0 <= k < |s| :: s[k] != ' '
    ensures WordStartsUpper(s, Capitalize(s))
  {
  }

  /** One step of the induction: the capitalized first word, the space, and a tail
      that already satisfies the property. */
  lemma CapitalizeSplit(s: string, i: nat, rt: string)
    requires i < |s| && s[i] == ' ' && forall k | 0 <= k < i :: s[k] != ' '
    requires WordStartsUpper(s[i + 1..], rt)
    ensures WordStartsUpper(s, Capitalize(s[..i]) + " " + rt)
  {
    var r := Capitalize(s[..i]) + " " + rt;
    var t := s[i + 1..];
    forall k | 0 <= k < |s| ensures r[k] == if StartsWord(s, k) then Upper(s[k]) else s[k] {
      if k > i {
        assert r[k] == rt[k - i - 1];
        assert s[k] == t[k - i - 1];
        assert StartsWord(s, k) == StartsWord(t, k - i - 1);
      }
    }
  }

  /** `titleCase`: empty gives `""`; otherwise the lowercased string with the first
      character of every space-separated word uppercased. */
  function TitleCase(str: string): (r: string)
    ensures |r| == |str|
    ensures forall k | 0 <= k < |str| :: r[k] == if StartsWord(str, k) then Upper(Lower(str[k])) else Lower(str[k])
  {
    if str == "" then ""
    else
      var t := LowerStr(str);
      CapitalizeWordsSpec(t);
      CapitalizeWords(t)
  }

  /** Spaces stay where they were. */
  lemma TitleCaseKeepsSpaces(str: string)
    ensures forall k | 0 <= k < |str| :: TitleCase(str)[k] == ' ' <==> str[k] == ' '
  {
  }

  lemma {:induction false} SameSpacesSameWords(a: string, b: string)
    requires |a| == |b|
    requires forall k | 0 <= k < |a| :: a[k] == ' ' <==> b[k] == ' '
    ensures |Words(a)| == |Words(b)|
    decreases |a|
  {
    SameFirstSpace(a, b);
    var i := FirstSpace(a);
    if i < |a| {
      SameSpacesSameWords(a[i + 1..], b[i + 1..]);
    }
  }

  lemma {:induction false} SameFirstSpace(a: string, b: string)
    requires |a| == |b|
    requires forall k | 0 <= k < |a| :: a[k] == ' ' <==> b[k] == ' '
    ensures FirstSpace(a) == FirstSpace(b)
  {
    if |a| > 0 && a[0] != ' ' {
      SameFirstSpace(a[1..], b[1..]);
    }
  }

  /** `titleCase` keeps the number of words. */
  lemma TitleCaseKeepsWordCount(str: string)
    ensures |Words(TitleCase(str))| == |Words(str)|
  {
    TitleCaseKeepsSpaces(str);
    SameSpacesSameWords(TitleCase(str), str);
  }

  /** Normalizing a normalized locality changes nothing. */
  lemma TitleCaseIdempotent(str: string)
    ensures TitleCase(TitleCase(str)) == TitleCase(str)
  {
    var r := TitleCase(str);
    var rr := TitleCase(r);
    TitleCaseKeepsSpaces(str);
    forall k | 0 <= k < |r| ensures rr[k] == r[k] {
      assert StartsWord(r, k) == StartsWord(str, k);
      LowerOfCased(str[k]);
    }
  }

  lemma LowerOfCased(c: char)
    ensures Lower(Upper(Lower(c))) == Lower(c)
    ensures Lower(Lower(c)) == Lower(c)
    ensures Upper(Lower(Upper(Lower(c)))) == Upper(Lower(c))
  {
  }

  // ---------------------------------------------------------------------------
  // Quick owner form

  /** `phone.replace(/\D/g, '')` */
  function DigitsOf(phone: string): (r: string)
    ensures forall i | 0 <= i < |r| :: IsDigit(r[i])
  {
    Seqs.Filter(phone, IsDigit)
  }

  datatype OwnerCheck = NameRequired | InvalidPhone | Accepted

  /** The save button's validation: a name is required, and a phone, when given, must
      carry exactly ten digits. */
  function ValidateOwner(fullName: string, phone: string): (r: OwnerCheck)
    ensures r == NameRequired <==> fullName == ""
    ensures r == InvalidPhone <==> fullName != "" && phone != "" && |DigitsOf(phone)| != 10
    ensures r == Accepted <==> fullName != "" && (phone == "" || |DigitsOf(phone)| == 10)
  {
    if fullName == "" then NameRequired
    else if phone != "" && |DigitsOf(phone)| != 10 then InvalidPhone
    else Accepted
  }

  /** Separators in a phone number do not matter: two non-empty phones with the same
      digits get the same verdict. */
  lemma PhoneSeparatorsIgnored(fullName: string, a: string, b: string)
    requires a != "" && b != ""
    requires DigitsOf(a) == DigitsOf(b)
    ensures ValidateOwner(fullName, a) == ValidateOwner(fullName, b)
  {
  }

  /** A separator added to a phone leaves its digits as they were. */
  lemma {:induction false} DigitsIgnoreSeparator(a: string, b: string, c: char)
    requires !IsDigit(c)
    ensures DigitsOf(a + [c] + b) == DigitsOf(a + b)
  {
    Seqs.FilterConcat(a + [c], b, IsDigit);
    Seqs.FilterConcat(a, [c], IsDigit);
    Seqs.FilterConcat(a, b, IsDigit);
    assert [c][1..] == [];
  }

  // ---------------------------------------------------------------------------
  // Restoring the amenity checkboxes

  /** The `flatMap` callback: a string starting with `[` is parsed (a parse failure
      contributes nothing), an array contributes its elements, anything else itself. */
  function Expand(item: JsValue, json: string -> Option<JsValue>): seq<JsValue>
  {
    match item
    case Str(s) =>
      if |s| > 0 && s[0] == '[' then
        match json(s)
        case None => []
        case Some(Arr(xs)) => xs
        case Some(v) => [v]
      else [item]
    case Arr(xs) => xs
    case _ => [item]
  }

  function Flatten(items: seq<JsValue>, json: string -> Option<JsValue>): seq<JsValue>
  {
    if |items| == 0 then [] else Expand(items[0], json) + Flatten(items[1..], json)
  }

  lemma {:induction false} FlattenConcat(a: seq<JsValue>, b: seq<JsValue>, json: string -> Option<JsValue>)
    ensures Flatten(a + b, json) == Flatten(a, json) + Flatten(b, json)
  {
    if |a| == 0 {
      assert a + b == b;
    } else {
      assert (a + b)[1..] == a[1..] + b;
      FlattenConcat(a[1..], b, json);
    }
  }

  /** An item `flatMap` passes through unchanged. */
  predicate Plain(item: JsValue)
  {
    !item.Arr? && !(item.Str? && |item.s| > 0 && item.s[0] == '[')
  }

  lemma {:induction false} FlattenPlain(items: seq<JsValue>, json: string -> Option<JsValue>)
    requires forall i | 0 <= i < |items| :: Plain(items[i])
    ensures Flatten(items, json) == items
  {
    if |items| > 0 {
      FlattenPlain(items[1..], json);
      assert items == [items[0]] + items[1..];
    }
  }

  function SameValue(v: JsValue): JsValue { v }

  /** The amenities to check when a property is loaded: none when the value is falsy
      or has no positive length; the flattened list without repeats, in first-occurrence
      order, for a non-empty array; a failure (`flatMap` is not a function) for any
      other value with a positive length. */
  function CleanAmenities(amenities: JsValue, json: string -> Option<JsValue>): (r: Option<seq<JsValue>>)
    ensures r.None? <==> Media.HasPositiveLength(amenities) && !amenities.Arr?
    ensures r.Some? && amenities.Arr? && |amenities.items| > 0 ==>
      && Seqs.DistinctKeys(r.value, SameValue)
      && (forall x :: x in r.value <==> x in Flatten(amenities.items, json))
      && Seqs.IsSubseq(r.value, Flatten(amenities.items, json))
    ensures r.Some? && !(amenities.Arr? && |amenities.items| > 0) ==> r.value == []
  {
    if !Media.HasPositiveLength(amenities) then Some([])
    else if amenities.Arr? then
      var flat := Flatten(amenities.items, json);
      var r := Seqs.DedupBy(flat, SameValue);
      assert forall x :: x in r <==> x in flat by {
        forall x ensures x in r <==> x in flat {
          if x in flat {
            var i :| 0 <= i < |flat| && flat[i] == x;
            assert SameValue(flat[i]) in Seqs.Keys(flat, SameValue);
            var j :| 0 <= j < |r| && SameValue(r[j]) == x;
          } else if x in r {
            Seqs.SubseqMembers(r, flat);
          }
        }
      }
      Some(r)
    else None
  }

  /** The common stored shape, one JSON-encoded list inside an array, restores that
      list without repeats. */
  lemma EncodedListRestored(s: string, xs: seq<JsValue>, json: string -> Option<JsValue>)
    requires |s| > 0 && s[0] == '['
    requires json(s) == Some(Arr(xs))
    ensures CleanAmenities(Arr([Str(s)]), json) == Some(Seqs.DedupBy(xs, SameValue))
  {
    assert [Str(s)][1..] == [];
    assert Expand(Str(s), json) == xs;
    assert Flatten([Str(s)], json) == xs;
    assert Media.HasPositiveLength(Arr([Str(s)]));
  }

  /** A list of plain names is restored as the same list without repeats. */
  lemma PlainListRestored(items: seq<JsValue>, json: string -> Option<JsValue>)
    requires |items| > 0
    requires forall i | 0 <= i < |items| :: Plain(items[i])
    ensures CleanAmenities(Arr(items), json) == Some(Seqs.DedupBy(items, SameValue))
  {
    FlattenPlain(items, json);
  }

  /** The checkbox whose value is `box` ends up checked iff the restored list holds
      that string; the boxes are all unchecked first. */
  function CheckedBoxes(boxes: seq<string>, amenities: JsValue, json: string -> Option<JsValue>): (r: Option<seq<bool>>)
    ensures r.Some? <==> CleanAmenities(amenities, json).Some?
    ensures r.Some? ==> |r.value| == |boxes|
    ensures r.Some? ==> forall i | 0 <= i < |boxes| ::
      r.value[i] <==> Str(boxes[i]) in CleanAmenities(amenities, json).value
  {
    match CleanAmenities(amenities, json)
    case None => None
    case Some(list) => Some(seq(|boxes|, i requires 0 <= i < |boxes| => Str(boxes[i]) in list))
  }
}

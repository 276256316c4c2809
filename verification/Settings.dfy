/** The settings store: an ordered list of (id, key, value) entries in memory, one text line each on disk. */
module SettingsText {
  import opened Options

  datatype Setting = Setting(id: string, key: string, value: string)

  /** Fits a field and a line. */
  predicate Plain(s: string) {
    |s| < 256 && '\n' !in s
  }

  /** Ids and keys. */
  predicate Name(s: string) {
    Plain(s) && s != "" && '=' !in s
  }

  predicate Writable(x: Setting) {
    Name(x.id) && Name(x.key) && Plain(x.value)
  }

  predicate AllWritable(s: seq<Setting>) {
    |s| <= 512 && forall i :: 0 <= i < |s| ==> Writable(s[i])
  }

  // ---- printing ----

  function Line(x: Setting): string {
    x.id + "=" + x.key + "=" + x.value + "\n"
  }

  function Print(s: seq<Setting>): string {
    if s == [] then "" else Print(s[..|s| - 1]) + Line(s[|s| - 1])
  }

  // ---- reading lines ----

  /** What fgets takes with room for `n` characters: up to and including the first newline. */
  function TakeLine(f: string, n: nat): (k: nat)
    ensures k <= |f| && k <= n && (f != "" && n > 0 ==> k > 0)
  {
    if f == "" || n == 0 then 0
    else if f[0] == '\n' then 1
    else 1 + TakeLine(f[1..], n - 1)
  }

  /** The pieces in which a file is read. */
  function Pieces(f: string): seq<string> {
    if f == "" then [] else [f[..TakeLine(f, 1022)]] + Pieces(f[TakeLine(f, 1022)..])
  }

  function CountEquals(s: string): nat {
    if s == "" then 0 else (if s[0] == '=' then 1 else 0) + CountEquals(s[1..])
  }

  /** Pieces of at most two characters are passed over. */
  predicate WellFormedPiece(p: string) {
    |p| > 2 ==> CountEquals(p) >= 2
  }

  predicate WellFormed(pieces: seq<string>) {
    forall i :: 0 <= i < |pieces| ==> WellFormedPiece(pieces[i])
  }

  // ---- splitting a line ----

  function SkipEquals(s: string): string {
    if s != "" && s[0] == '=' then SkipEquals(s[1..]) else s
  }

  /** Index of the first '=', or the length. */
  function UpToEquals(s: string): (k: nat)
    ensures k <= |s|
  {
    if s == "" || s[0] == '=' then 0 else 1 + UpToEquals(s[1..])
  }

  /** strtok with the delimiter '=': the token and what follows its delimiter; None for NULL. */
  function Token(s: string): Option<(string, string)> {
    var t := SkipEquals(s);
    if t == "" then None
    else
      var k := UpToEquals(t);
      Some((t[..k], if k < |t| then t[k + 1..] else ""))
  }

  /** The entry on a line of more than two characters, the last of which is dropped. */
  function ParseLine(p: string): Option<Setting>
    requires |p| > 2
  {
    match Token(p[..|p| - 1])
    case None => None
    case Some((id, rest)) =>
      match Token(rest)
      case None => None
      case Some((key, value)) => Some(Setting(id, key, value))
  }

  /** Every line the loader will split has an id and a key. */
  predicate Splittable(pieces: seq<string>) {
    forall i :: 0 <= i < |pieces| && |pieces[i]| > 2 ==> ParseLine(pieces[i]).Some?
  }

  function Entries(pieces: seq<string>): seq<Setting>
    requires Splittable(pieces)
  {
    if pieces == [] then []
    else
      var last := pieces[|pieces| - 1];
      Entries(pieces[..|pieces| - 1]) + if |last| > 2 then [ParseLine(last).value] else []
  }

  // ---- reading back what was printed ----

  lemma {:induction false} CountEqualsConcat(a: string, b: string)
    ensures CountEquals(a + b) == CountEquals(a) + CountEquals(b)
  {
    if a == "" {
      assert a + b == b;
    } else {
      CountEqualsConcat(a[1..], b);
      assert (a + b)[1..] == a[1..] + b;
    }
  }

  lemma LineIsWellFormed(x: Setting)
    requires Writable(x)
    ensures |Line(x)| > 2 && CountEquals(Line(x)) >= 2
  {
    CountEqualsConcat(x.id + "=" + x.key + "=" + x.value, "\n");
    CountEqualsConcat(x.id + "=" + x.key + "=", x.value);
    CountEqualsConcat(x.id + "=" + x.key, "=");
    CountEqualsConcat(x.id + "=", x.key);
    CountEqualsConcat(x.id, "=");
    assert CountEquals("=") == 1;
  }

  lemma {:induction false} UpToEqualsSkips(s: string, rest: string)
    requires '=' !in s
    ensures UpToEquals(s + "=" + rest) == |s|
  {
    if s == "" {
      assert (s + "=" + rest)[0] == '=';
    } else {
      UpToEqualsSkips(s[1..], rest);
      assert (s + "=" + rest)[1..] == s[1..] + "=" + rest;
    }
  }

  lemma TokenOfName(s: string, rest: string)
    requires Name(s)
    ensures Token(s + "=" + rest) == Some((s, rest))
  {
    var t := s + "=" + rest;
    assert t[0] == s[0] && s[0] in s;
    UpToEqualsSkips(s, rest);
    assert t[..|s|] == s && t[|s| + 1..] == rest;
  }

  /** A printed line parses to its entry, even when the value is empty or contains '='. */
  lemma ParsePrinted(x: Setting)
    requires Writable(x)
    ensures |Line(x)| > 2 && ParseLine(Line(x)) == Some(x)
  {
    hide Token;
    var body := x.id + "=" + (x.key + "=" + x.value);
    assert Line(x)[..|Line(x)| - 1] == body;
    TokenOfName(x.id, x.key + "=" + x.value);
    TokenOfName(x.key, x.value);
  }

  lemma {:induction false} TakeLineStops(s: string, rest: string, n: nat)
    requires '\n' !in s && |s| < n
    ensures TakeLine(s + "\n" + rest, n) == |s| + 1
  {
    var f := s + "\n" + rest;
    if s == "" {
      assert f[0] == '\n';
    } else {
      TakeLineStops(s[1..], rest, n - 1);
      assert f[1..] == s[1..] + "\n" + rest && f[0] == s[0] && s[0] in s;
    }
  }

  lemma PiecesOfLine(x: Setting, rest: string)
    requires Writable(x)
    ensures Pieces(Line(x) + rest) == [Line(x)] + Pieces(rest)
  {
    hide TakeLine;
    var body := x.id + "=" + x.key + "=" + x.value;
    assert '\n' !in body;
    TakeLineStops(body, rest, 1022);
    var f := Line(x) + rest;
    assert f == body + "\n" + rest;
    assert f[..|Line(x)|] == Line(x) && f[|Line(x)|..] == rest;
  }

  function Lines(s: seq<Setting>): (l: seq<string>)
    ensures |l| == |s|
  {
    seq(|s|, i requires 0 <= i < |s| => Line(s[i]))
  }

  lemma {:induction false} PiecesOfPrinted(s: seq<Setting>, rest: string)
    requires forall i :: 0 <= i < |s| ==> Writable(s[i])
    ensures Pieces(Print(s) + rest) == Lines(s) + Pieces(rest)
  {
    hide Line, Writable, Pieces;
    if s == [] {
      assert Print(s) + rest == rest;
    } else {
      var n := |s| - 1;
      PiecesOfPrinted(s[..n], Line(s[n]) + rest);
      assert Print(s) + rest == Print(s[..n]) + (Line(s[n]) + rest);
      PiecesOfLine(s[n], rest);
      assert Lines(s) == Lines(s[..n]) + [Line(s[n])];
    }
  }

  lemma {:induction false} EntriesOfLines(s: seq<Setting>)
    requires forall i :: 0 <= i < |s| ==> Writable(s[i])
    ensures WellFormed(Lines(s)) && Splittable(Lines(s)) && Entries(Lines(s)) == s
  {
    hide Line, Writable, ParseLine, CountEquals;
    forall i | 0 <= i < |s|
      ensures |Line(s[i])| > 2 && ParseLine(Line(s[i])) == Some(s[i]) && CountEquals(Line(s[i])) >= 2
    {
      ParsePrinted(s[i]);
      LineIsWellFormed(s[i]);
    }
    if s != [] {
      var n := |s| - 1;
      EntriesOfLines(s[..n]);
      assert Lines(s)[..n] == Lines(s[..n]);
    }
  }

  /** Loading what was saved restores the list, entries and order. */
  lemma LoadOfSave(s: seq<Setting>)
    requires AllWritable(s)
    ensures WellFormed(Pieces(Print(s))) && Splittable(Pieces(Print(s))) && Entries(Pieces(Print(s))) == s
  {
    PiecesOfPrinted(s, "");
    assert Print(s) + "" == Print(s);
    EntriesOfLines(s);
    assert Lines(s) + [] == Lines(s);
  }
}

/** The store itself: what is in memory, what is on disk, and how they stay the same. */
module SettingsStores {
  import opened Options
  import opened SettingsText

  /** Position of the entry for (id, key) among the first `n`; `n` when there is none. */
  function Find(s: seq<Setting>, id: string, key: string, n: nat): (k: nat)
    requires n <= |s|
    ensures k <= n && (k < n ==> s[k].id == id && s[k].key == key)
    ensures forall j :: 0 <= j < k ==> !(s[j].id == id && s[j].key == key)
  {
    if n == 0 then 0
    else
      var k := Find(s, id, key, n - 1);
      if k < n - 1 then k else if s[n - 1].id == id && s[n - 1].key == key then n - 1 else n
  }

  function Lookup(s: seq<Setting>, id: string, key: string): Option<string> {
    var k := Find(s, id, key, |s|);
    if k < |s| then Some(s[k].value) else None
  }

  /** The entry gets a new value, or a new entry is put at the end. */
  function Updated(s: seq<Setting>, id: string, key: string, value: string): (r: seq<Setting>) {
    var k := Find(s, id, key, |s|);
    if k < |s| then s[k := s[k].(value := value)] else s + [Setting(id, key, value)]
  }

  lemma FindUnique(s: seq<Setting>, id: string, key: string, n: nat, k: nat)
    requires n <= |s| && k <= n
    requires k < n ==> s[k].id == id && s[k].key == key
    requires forall j :: 0 <= j < k ==> !(s[j].id == id && s[j].key == key)
    ensures Find(s, id, key, n) == k
  {
  }

  /** Settings behave like a map: the last value set is found, everything else is as before. */
  lemma LookupUpdated(s: seq<Setting>, id: string, key: string, value: string, id': string, key': string)
    ensures Lookup(Updated(s, id, key, value), id', key') ==
            if id' == id && key' == key then Some(value) else Lookup(s, id', key')
  {
    var r, f, f' := Updated(s, id, key, value), Find(s, id, key, |s|), Find(s, id', key', |s|);
    if id' == id && key' == key {
      FindUnique(r, id, key, |r|, f);
    } else {
      FindUnique(r, id', key', |r|, if f' < |s| then f' else |r|);
    }
  }

  class SettingsStore {
    var settings: seq<Setting>
    /** Content of the settings file, if there is one. */
    var file: Option<string>

    /** What loading the file gives; a file that fails verification counts as no settings. */
    ghost function OnDisk(): seq<Setting>
      reads this
    {
      match file
      case None => []
      case Some(f) => if WellFormed(Pieces(f)) && Splittable(Pieces(f)) then Entries(Pieces(f)) else []
    }

    /** The settings in force: an empty list in memory means that the file has yet to be read. */
    ghost function Contents(): seq<Setting>
      reads this
    {
      if settings == [] then OnDisk() else settings
    }

    ghost predicate Valid()
      reads this
    {
      && AllWritable(Contents())
      && (settings != [] ==> OnDisk() == settings)
      && (file.Some? && WellFormed(Pieces(file.value)) ==> Splittable(Pieces(file.value)))
    }

    /** A new process: nothing in memory, whatever the file holds. */
    constructor (file: Option<string>)
      requires file.Some? && WellFormed(Pieces(file.value)) ==>
        Splittable(Pieces(file.value)) && AllWritable(Entries(Pieces(file.value)))
      ensures Valid() && this.file == file && settings == []
    {
      this.file, settings := file, [];
    }

    /** verify_settings; a malformed file is removed. */
    method Verify() returns (ok: bool)
      modifies this`file
      ensures ok <==> file == old(file) && (file.Some? ==> WellFormed(Pieces(file.value)))
      ensures !ok ==> old(file).Some? && !WellFormed(Pieces(old(file).value)) && file == None
    {
      if file == None {
        return true;
      }
      var pieces, i := Pieces(file.value), 0;
      while i < |pieces|
        invariant 0 <= i <= |pieces| && pieces == Pieces(file.value) && file == old(file) && file.Some?
        invariant forall j :: 0 <= j < i ==> WellFormedPiece(pieces[j])
      {
        if |pieces[i]| > 2 && CountEquals(pieces[i]) < 2 {
          file := None;
          return false;
        }
        i := i + 1;
      }
      ok := true;
    }

    /** load_settings */
    method Load()
      requires Valid()
      modifies this
      ensures Valid() && settings == old(OnDisk()) && Contents() == old(OnDisk())
    {
      hide WellFormed, Pieces;
      settings := [];
      var ok := Verify();
      if ok && file.Some? {
        var pieces, i := Pieces(file.value), 0;
        assert pieces[..0] == [];
        while i < |pieces|
          invariant 0 <= i <= |pieces| && Splittable(pieces) && Splittable(pieces[..i]) && settings == Entries(pieces[..i])
          invariant file == old(file)
        {
          SplittablePrefix(pieces, i);
          if |pieces[i]| > 2 {
            settings := settings + [ParseLine(pieces[i]).value];
          }
          i := i + 1;
        }
        assert pieces[..i] == pieces;
      }
    }

    lemma SplittablePrefix(pieces: seq<string>, i: nat)
      requires Splittable(pieces) && i < |pieces|
      ensures Splittable(pieces[..i]) && Splittable(pieces[..i + 1])
      ensures |pieces[i]| > 2 ==> ParseLine(pieces[i]).Some?
      ensures Entries(pieces[..i + 1]) == Entries(pieces[..i]) + if |pieces[i]| > 2 then [ParseLine(pieces[i]).value] else []
    {
      assert pieces[..i + 1][..i] == pieces[..i];
    }

    /** save_settings */
    method Save()
      requires AllWritable(settings)
      modifies this`file
      ensures Valid() && Contents() == settings && OnDisk() == settings
    {
      hide Line;
      var text, x := "", 0;
      while x < |settings|
        invariant 0 <= x <= |settings| && text == Print(settings[..x])
      {
        assert settings[..x + 1][..x] == settings[..x];
        text := text + Line(settings[x]);
        x := x + 1;
      }
      assert settings[..x] == settings;
      file := Some(text);
      LoadOfSave(settings);
    }

    /** gp_setting_get */
    method Get(id: string, key: string) returns (value: Option<string>)
      requires Valid()
      modifies this
      ensures Valid() && Contents() == old(Contents())
      ensures value == Lookup(Contents(), id, key)
    {
      hide WellFormed, Splittable, Pieces, Entries;
      if |settings| == 0 {
        Load();
      }
      var k := FindLoop(id, key);
      value := if k < |settings| then Some(settings[k].value) else None;
    }

    method FindLoop(id: string, key: string) returns (x: nat)
      ensures x == Find(settings, id, key, |settings|)
    {
      x := 0;
      while x < |settings|
        invariant 0 <= x <= |settings|
        invariant forall j :: 0 <= j < x ==> !(settings[j].id == id && settings[j].key == key)
      {
        if settings[x].id == id && settings[x].key == key {
          break;
        }
        x := x + 1;
      }
      FindUnique(settings, id, key, |settings|, x);
    }

    /** gp_setting_set; a new entry needs a free place among the 512. */
    method Set(id: string, key: string, value: string)
      requires Valid() && Name(id) && Name(key) && Plain(value)
      requires Lookup(Contents(), id, key).Some? || |Contents()| < 512
      modifies this
      ensures Valid() && Contents() == Updated(old(Contents()), id, key, value)
      ensures settings == Contents()
    {
      hide WellFormed, Splittable, Pieces, Entries;
      if |settings| == 0 {
        Load();
      }
      var k := FindLoop(id, key);
      if k < |settings| {
        settings := settings[k := settings[k].(value := value)];
      } else {
        settings := settings + [Setting(id, key, value)];
      }
      Save();
    }

    /** What a later process finds is what this one had in force. */
    method Restart() returns (later: SettingsStore)
      requires Valid()
      ensures later.Valid() && later.Contents() == Contents()
    {
      later := new SettingsStore(file);
    }
  }
}

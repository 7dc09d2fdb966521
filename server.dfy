/** The tile server (server.js): the integer configuration clamp, the
    validation of a tile request, and the format fallback that serves the
    first candidate file that exists. */
module TileServer {
  import opened Wrappers
  import Decimal

  // ---------------------------------------------------------------------
  // parseInt(s, 10)
  // ---------------------------------------------------------------------

  /** The characters JavaScript strips before a number: white space
      (tab, vertical tab, form feed, space, no-break space, byte order mark
      and the other space separators) and the line terminators. */
  predicate IsJsSpace(ch: char) {
    || ch == '\t' || ch == '\n' || ch == '\U{000B}' || ch == '\U{000C}' || ch == '\r'
    || ch == ' ' || ch == '\U{00A0}' || ch == '\U{1680}'
    || ('\U{2000}' <= ch <= '\U{200A}')
    || ch == '\U{2028}' || ch == '\U{2029}' || ch == '\U{202F}' || ch == '\U{205F}'
    || ch == '\U{3000}' || ch == '\U{FEFF}'
  }

  predicate AllSpace(s: string) {
    forall i | 0 <= i < |s| :: IsJsSpace(s[i])
  }

  /** `s` without its leading white space. */
  function TrimStart(s: string): (t: string)
    ensures |t| <= |s| && t == s[|s| - |t|..]
    ensures AllSpace(s[..|s| - |t|])
    ensures t == [] || !IsJsSpace(t[0])
    decreases |s|
  {
    if s != [] && IsJsSpace(s[0]) then TrimStart(s[1..]) else s
  }

  /** The longest run of ASCII digits at the start of `s`. */
  function DigitRun(s: string): (d: string)
    ensures Decimal.AllDigits(d) && |d| <= |s| && d == s[..|d|]
    ensures |d| == |s| || !Decimal.IsDigit(s[|d|])
    decreases |s|
  {
    if s == [] || !Decimal.IsDigit(s[0]) then [] else [s[0]] + DigitRun(s[1..])
  }

  /** The value of the digit run at the start of `u`; None when there is
      none. */
  function ReadDigits(u: string): (r: Option<nat>)
    ensures r.None? <==> u == [] || !Decimal.IsDigit(u[0])
  {
    var d := DigitRun(u);
    if d == [] then None else Some(Decimal.DigitsValue(d))
  }

  /** One optional sign, then the digit run. */
  function ReadSigned(t: string): (r: Option<int>)
  {
    if t != [] && t[0] == '-' then
      var m := ReadDigits(t[1..]); if m.None? then None else Some(0 - m.value)
    else if t != [] && t[0] == '+' then
      var m := ReadDigits(t[1..]); if m.None? then None else Some(m.value)
    else
      var m := ReadDigits(t); if m.None? then None else Some(m.value)
  }

  /** `parseInt(s, 10)` as a mathematical integer: leading white space is
      skipped, one optional sign is read, then the longest run of digits;
      everything after it is ignored. None stands for NaN (no digit). */
  function ParseInt(s: string): (r: Option<int>)
  {
    ReadSigned(TrimStart(s))
  }

  /** How `${n}` writes an integer: a minus sign for negatives, then the
      shortest decimal form of the magnitude. */
  function IntToString(n: int): (s: string)
    ensures |s| >= 1 && (s[0] == '-' || Decimal.IsDigit(s[0]))
  {
    if n < 0 then "-" + Decimal.NatToString(-n) else Decimal.NatToString(n)
  }

  lemma {:induction false} TrimStartSkipsSpace(ws: string, s: string)
    requires AllSpace(ws) && (s == [] || !IsJsSpace(s[0]))
    ensures TrimStart(ws + s) == s
    decreases |ws|
  {
    if ws != [] {
      assert (ws + s)[1..] == ws[1..] + s;
      TrimStartSkipsSpace(ws[1..], s);
    } else {
      assert ws + s == s;
    }
  }

  lemma {:induction false} DigitRunOfDigits(d: string, tail: string)
    requires Decimal.AllDigits(d)
    requires tail == [] || !Decimal.IsDigit(tail[0])
    ensures DigitRun(d + tail) == d
    decreases |d|
  {
    if d != [] {
      assert (d + tail)[1..] == d[1..] + tail;
      DigitRunOfDigits(d[1..], tail);
    } else {
      assert d + tail == tail;
    }
  }

  /** A numeral followed by non-digit text reads as its value. */
  lemma ReadDigitsOfNatural(m: nat, tail: string)
    requires tail == [] || !Decimal.IsDigit(tail[0])
    ensures ReadDigits(Decimal.NatToString(m) + tail) == Some(m)
  {
    DigitRunOfDigits(Decimal.NatToString(m), tail);
    Decimal.ValueOfNatToString(m);
  }

  lemma ReadSignedOfNegative(m: nat, tail: string)
    requires tail == [] || !Decimal.IsDigit(tail[0])
    ensures ReadSigned("-" + Decimal.NatToString(m) + tail) == Some(0 - m)
  {
    var t := "-" + Decimal.NatToString(m) + tail;
    assert t[0] == '-';
    assert t[1..] == Decimal.NatToString(m) + tail;
    ReadDigitsOfNatural(m, tail);
  }

  lemma ReadSignedOfNatural(m: nat, tail: string)
    requires tail == [] || !Decimal.IsDigit(tail[0])
    ensures ReadSigned(Decimal.NatToString(m) + tail) == Some(m)
  {
    var t := Decimal.NatToString(m) + tail;
    assert t[0] == Decimal.NatToString(m)[0];
    assert t[0] != '-' && t[0] != '+';
    ReadDigitsOfNatural(m, tail);
  }

  /** The written integer, followed by non-digit text, reads as itself. */
  lemma ReadSignedOfNumeral(n: int, tail: string)
    requires tail == [] || !Decimal.IsDigit(tail[0])
    ensures ReadSigned(IntToString(n) + tail) == Some(n)
  {
    if n < 0 {
      ReadSignedOfNegative(-n, tail);
    } else {
      ReadSignedOfNatural(n, tail);
    }
  }

  /** parseInt reads back every integer written in decimal, whatever white
      space precedes it and whatever non-digit text follows it. */
  lemma ParseIntReadsNumeral(ws: string, n: int, tail: string)
    requires AllSpace(ws)
    requires tail == [] || !Decimal.IsDigit(tail[0])
    ensures ParseInt(ws + IntToString(n) + tail) == Some(n)
  {
    var t := IntToString(n) + tail;
    assert ws + IntToString(n) + tail == ws + t;
    assert t[0] == IntToString(n)[0];
    TrimStartSkipsSpace(ws, t);
    ReadSignedOfNumeral(n, tail);
  }

  /** A string without any digit is NaN: the unset variable (""), a word,
      white space alone. */
  lemma ParseIntNeedsDigit(s: string)
    requires forall i | 0 <= i < |s| :: !Decimal.IsDigit(s[i])
    ensures ParseInt(s) == None
  {
    var t := TrimStart(s);
    if |t| > 0 {
      assert t[0] == s[|s| - |t|];
    }
    if |t| > 1 {
      assert t[1] == s[|s| - |t| + 1];
    }
  }

  // ---------------------------------------------------------------------
  // clampInt(v, def, min, max)
  // ---------------------------------------------------------------------

  /** 2^1024 - 2^970: the magnitude from which a decimal integer rounds to
      an infinite double, which `Number.isFinite` refuses. */
  const Overflow: int := 179769313486231580793728971405303415079934132710037826936173778980444968292764750946649017977587207096330286416692887910946555547851940402630657488671505820681908902000708383676273854845817711531764475730270069855571366959622842914819860834936475292719074168444365510704342711559699508093042880177904174497792

  function Min(a: int, b: int): int { if a <= b then a else b }
  function Max(a: int, b: int): int { if a >= b then a else b }

  /** `clampInt(v, def, min, max)`: the environment value `v` (None when
      unset) is read with parseInt; a finite result is clamped with
      `Math.min(max, Math.max(min, n))`, NaN and infinities give `def`. */
  function ClampInt(v: Option<string>, def: int, min: int, max: int): (r: int)
  {
    var n := ParseInt(if v.Some? then v.value else "");
    if n.Some? && -Overflow < n.value < Overflow then Min(max, Max(min, n.value)) else def
  }

  /** Unset, empty, non-numeric or overflowing input gives the default; a
      finite number is clamped into [min, max]: kept when inside, raised to
      min below, lowered to max above. */
  lemma ClampIntCases(v: Option<string>, def: int, min: int, max: int)
    requires min <= max
    ensures var n := ParseInt(if v.Some? then v.value else "");
      && (v.None? ==> ClampInt(v, def, min, max) == def)
      && (n.None? ==> ClampInt(v, def, min, max) == def)
      && (n.Some? && (n.value >= Overflow || n.value <= -Overflow) ==> ClampInt(v, def, min, max) == def)
      && (n.Some? && -Overflow < n.value < Overflow ==>
            && min <= ClampInt(v, def, min, max) <= max
            && (min <= n.value <= max ==> ClampInt(v, def, min, max) == n.value)
            && (n.value < min ==> ClampInt(v, def, min, max) == min)
            && (n.value > max ==> ClampInt(v, def, min, max) == max))
  {
    if v.None? {
      ParseIntNeedsDigit("");
    }
  }

  /** With a default inside [min, max] the result is always inside. */
  lemma ClampIntInRange(v: Option<string>, def: int, min: int, max: int)
    requires min <= def <= max
    ensures min <= ClampInt(v, def, min, max) <= max
  {
  }

  /** A decimal numeral, however surrounded by white space and trailing
      text, is clamped by its value. */
  lemma ClampIntOfNumeral(ws: string, n: int, tail: string, def: int, min: int, max: int)
    requires AllSpace(ws) && (tail == [] || !Decimal.IsDigit(tail[0]))
    requires -Overflow < n < Overflow && min <= max
    ensures ClampInt(Some(ws + IntToString(n) + tail), def, min, max)
         == if n < min then min else if n > max then max else n
  {
    ParseIntReadsNumeral(ws, n, tail);
  }

  // ---------------------------------------------------------------------
  // Configuration
  // ---------------------------------------------------------------------

  /** The clamped settings read from the environment at start-up. */
  datatype Config = Config(gridRows: int, gridCols: int, tileW: int, tileH: int, cacheMaxAge: int)

  /** Lines 8-12 of server.js: each variable clamped with its own default
      and bounds. */
  function LoadConfig(env: map<string, string>): (c: Config)
  {
    var get := (name: string) => if name in env then Some(env[name]) else None;
    Config(
      ClampInt(get("GRID_ROWS"), 26, 1, 26),
      ClampInt(get("GRID_COLS"), 26, 1, 1000),
      ClampInt(get("TILE_W"), 0, 0, 20000),
      ClampInt(get("TILE_H"), 0, 0, 20000),
      ClampInt(get("CACHE_MAX_AGE_SECONDS"), 31536000, 0, 31536000))
  }

  /** Whatever the environment holds, the grid has 1 to 26 rows (one per
      letter A..Z) and 1 to 1000 columns, tile sizes are 0 to 20000 and the
      cache lifetime is at most a year; an empty environment gives the
      defaults. */
  lemma LoadConfigBounds(env: map<string, string>)
    ensures var c := LoadConfig(env);
      && 1 <= c.gridRows <= 26 && 1 <= c.gridCols <= 1000
      && 0 <= c.tileW <= 20000 && 0 <= c.tileH <= 20000
      && 0 <= c.cacheMaxAge <= 31536000
    ensures env == map[] ==> LoadConfig(env) == Config(26, 26, 0, 0, 31536000)
  {
    var get := (name: string) => if name in env then Some(env[name]) else None;
    ClampIntInRange(get("GRID_ROWS"), 26, 1, 26);
    ClampIntInRange(get("GRID_COLS"), 26, 1, 1000);
    ClampIntInRange(get("TILE_W"), 0, 0, 20000);
    ClampIntInRange(get("TILE_H"), 0, 0, 20000);
    ClampIntInRange(get("CACHE_MAX_AGE_SECONDS"), 31536000, 0, 31536000);
    if env == map[] {
      ParseIntNeedsDigit("");
    }
  }

  // ---------------------------------------------------------------------
  // Request validation
  // ---------------------------------------------------------------------

  /** The characters of `[a-zA-Z0-9_-]`. */
  predicate IsIdChar(ch: char) {
    ('a' <= ch <= 'z') || ('A' <= ch <= 'Z') || Decimal.IsDigit(ch) || ch == '_' || ch == '-'
  }

  /** `/^[a-zA-Z0-9_-]+$/.test(mapId)`. */
  predicate ValidMapId(mapId: string) {
    |mapId| > 0 && forall i | 0 <= i < |mapId| :: IsIdChar(mapId[i])
  }

  /** An accepted map id names one directory inside the tiles directory:
      it has no separator and is neither "." nor "..". */
  lemma ValidMapIdStaysInside(mapId: string)
    requires ValidMapId(mapId)
    ensures '/' !in mapId && '\\' !in mapId && mapId != "." && mapId != ".."
  {
    assert !IsIdChar('/') && !IsIdChar('\\') && !IsIdChar('.');
    assert IsIdChar(mapId[0]);
  }

  datatype Ext = Png | Webp

  function ExtName(e: Ext): string {
    match e
    case Png => "png"
    case Webp => "webp"
  }

  function OtherExt(e: Ext): (o: Ext)
    ensures o != e
  {
    if e == Webp then Png else Webp
  }

  /** The `[A-Z]\d+` group: one upper-case letter and one or more digits. */
  predicate IsBase(base: string) {
    |base| >= 2 && 'A' <= base[0] <= 'Z' && Decimal.AllDigits(base[1..])
  }

  /** The two capture groups of a matched tile name. */
  datatype TileName = TileName(base: string, ext: Ext)

  /** The file name a base and an extension make. */
  function FileName(base: string, e: Ext): string {
    base + "." + ExtName(e)
  }

  /** `name.match(/^([A-Z]\d+)\.(png|webp)$/)`: the digits after the letter
      are read greedily, and what follows must be exactly ".png" or ".webp". */
  function ParseTileName(name: string): (r: Option<TileName>)
  {
    if |name| < 2 || !('A' <= name[0] <= 'Z') then None
    else
      var d := DigitRun(name[1..]);
      if d == [] then None
      else
        var rest := name[1 + |d|..];
        if rest == ".png" then Some(TileName(name[..1 + |d|], Png))
        else if rest == ".webp" then Some(TileName(name[..1 + |d|], Webp))
        else None
  }

  /** What the match accepts has the pattern's shape: a valid base, a dot
      and the extension. */
  lemma ParseTileNameSound(name: string)
    requires ParseTileName(name).Some?
    ensures var t := ParseTileName(name).value;
      IsBase(t.base) && name == FileName(t.base, t.ext)
  {
    var d := DigitRun(name[1..]);
    var t := ParseTileName(name).value;
    assert t.base == name[..1 + |d|];
    assert t.base[1..] == d;
    assert name == name[..1 + |d|] + name[1 + |d|..];
  }

  /** Everything of the pattern's shape is accepted, with its own groups. */
  lemma ParseTileNameComplete(base: string, e: Ext)
    requires IsBase(base)
    ensures ParseTileName(FileName(base, e)) == Some(TileName(base, e))
  {
    var name := FileName(base, e);
    var tail := "." + ExtName(e);
    assert name[1..] == base[1..] + tail;
    DigitRunOfDigits(base[1..], tail);
    assert name[..|base|] == base;
    assert name[|base|..] == tail;
  }

  /** The two file names `candidates` lists: the requested extension, then
      the other one. */
  function Candidates(t: TileName): (c: seq<string>)
  {
    if t.ext == Webp then [FileName(t.base, Webp), FileName(t.base, Png)]
    else [FileName(t.base, Png), FileName(t.base, Webp)]
  }

  /** Two candidates, distinct, sharing the requested base: first the name
      asked for, then the same tile in the other format. */
  lemma CandidatesOrder(name: string)
    requires ParseTileName(name).Some?
    ensures var t := ParseTileName(name).value;
      var c := Candidates(t);
      && |c| == 2
      && c[0] == name
      && c[1] == FileName(t.base, OtherExt(t.ext))
      && c[0] != c[1]
      && ParseTileName(c[0]) == Some(t)
      && ParseTileName(c[1]) == Some(TileName(t.base, OtherExt(t.ext)))
  {
    var t := ParseTileName(name).value;
    ParseTileNameSound(name);
    ParseTileNameComplete(t.base, t.ext);
    ParseTileNameComplete(t.base, OtherExt(t.ext));
  }

  // ---------------------------------------------------------------------
  // Responses
  // ---------------------------------------------------------------------

  datatype Response =
    | BadRequest(message: string)
    | NotFound
    | Serve(mapId: string, file: string, maxAge: int)

  const BadMapId: string := "Bad mapId"
  const BadTileName: string := "Bad tile name"

  /** `tryNext(i)`: `isFile` says whether the stat of a candidate succeeds
      on a regular file; a failed stat and anything else go on to the next
      candidate, and running out of candidates is 404. */
  function TryNext(mapId: string, c: seq<string>, i: nat, isFile: string -> bool, maxAge: int): (r: Response)
    decreases |c| - i
  {
    if i >= |c| then NotFound
    else if isFile(c[i]) then Serve(mapId, c[i], maxAge)
    else TryNext(mapId, c, i + 1, isFile, maxAge)
  }

  /** From position i, tryNext serves the first candidate that is a file,
      and answers 404 exactly when none from i on is. */
  lemma {:induction false} TryNextFirstExisting(mapId: string, c: seq<string>, i: nat, isFile: string -> bool, maxAge: int)
    ensures var r := TryNext(mapId, c, i, isFile, maxAge);
      && (r.NotFound? || r.Serve?)
      && (r.NotFound? <==> forall j | i <= j < |c| :: !isFile(c[j]))
      && (r.Serve? ==> exists j | i <= j < |c| ::
            && r == Serve(mapId, c[j], maxAge) && isFile(c[j])
            && forall k | i <= k < j :: !isFile(c[k]))
    decreases |c| - i
  {
    if i < |c| && !isFile(c[i]) {
      TryNextFirstExisting(mapId, c, i + 1, isFile, maxAge);
      var r := TryNext(mapId, c, i + 1, isFile, maxAge);
      if r.Serve? {
        var j :| i + 1 <= j < |c| && r == Serve(mapId, c[j], maxAge) && isFile(c[j])
          && forall k | i + 1 <= k < j :: !isFile(c[k]);
        assert forall k | i <= k < j :: !isFile(c[k]);
      }
    }
  }

  /** The stat of a file name inside the map's directory. */
  function InDir(isFile: (string, string) -> bool, mapId: string): (f: string -> bool)
    ensures forall name :: f(name) == isFile(mapId, name)
  {
    name => isFile(mapId, name)
  }

  /** The `/tiles/:mapId/:name` handler. `isFile(mapId, file)` is the stat
      of `file` in the map's directory; `maxAge` is the configured cache
      lifetime put in the Cache-Control header of a served file. */
  function HandleTile(mapId: string, name: string, isFile: (string, string) -> bool, maxAge: int): (r: Response)
  {
    if !ValidMapId(mapId) then BadRequest(BadMapId)
    else
      var t := ParseTileName(name);
      if t.None? then BadRequest(BadTileName)
      else TryNext(mapId, Candidates(t.value), 0, InDir(isFile, mapId), maxAge)
  }

  /** A bad map id is refused with 400 before any file is looked at: the
      answer is the same whatever the file system holds. */
  lemma HandleTileBadMapId(mapId: string, name: string, isFile: (string, string) -> bool, other: (string, string) -> bool, maxAge: int)
    requires !ValidMapId(mapId)
    ensures HandleTile(mapId, name, isFile, maxAge) == BadRequest(BadMapId)
    ensures HandleTile(mapId, name, isFile, maxAge) == HandleTile(mapId, name, other, maxAge)
  {
  }

  /** A name that is not a letter, digits and ".png" or ".webp" is refused
      with 400, again without looking at any file. */
  lemma HandleTileBadName(mapId: string, name: string, isFile: (string, string) -> bool, other: (string, string) -> bool, maxAge: int)
    requires ValidMapId(mapId)
    requires forall base, e | IsBase(base) :: name != FileName(base, e)
    ensures HandleTile(mapId, name, isFile, maxAge) == BadRequest(BadTileName)
    ensures HandleTile(mapId, name, isFile, maxAge) == HandleTile(mapId, name, other, maxAge)
  {
    if ParseTileName(name).Some? {
      ParseTileNameSound(name);
    }
  }

  /** A well-formed request is answered with the requested file when it
      exists, else with the same tile in the other format, else 404. */
  lemma HandleTileFallback(mapId: string, base: string, e: Ext, isFile: (string, string) -> bool, maxAge: int)
    requires ValidMapId(mapId) && IsBase(base)
    ensures HandleTile(mapId, FileName(base, e), isFile, maxAge) ==
      if isFile(mapId, FileName(base, e)) then Serve(mapId, FileName(base, e), maxAge)
      else if isFile(mapId, FileName(base, OtherExt(e))) then Serve(mapId, FileName(base, OtherExt(e)), maxAge)
      else NotFound
  {
    ParseTileNameComplete(base, e);
    var c := Candidates(TileName(base, e));
    var f := InDir(isFile, mapId);
    assert c[0] == FileName(base, e) && c[1] == FileName(base, OtherExt(e));
    assert HandleTile(mapId, FileName(base, e), isFile, maxAge) == TryNext(mapId, c, 0, f, maxAge);
    assert TryNext(mapId, c, 1, f, maxAge) ==
      if f(c[1]) then Serve(mapId, c[1], maxAge) else TryNext(mapId, c, 2, f, maxAge);
    assert TryNext(mapId, c, 2, f, maxAge) == NotFound;
  }

  /** The handler answers 400, 404 or a file; a served file is one of the
      candidates and exists, and 404 means neither candidate exists. */
  lemma HandleTileOutcome(mapId: string, name: string, isFile: (string, string) -> bool, maxAge: int)
    ensures var r := HandleTile(mapId, name, isFile, maxAge);
      && (r.BadRequest? <==> !ValidMapId(mapId) || ParseTileName(name).None?)
      && (r.Serve? ==> r.mapId == mapId && r.file in Candidates(ParseTileName(name).value)
                       && isFile(mapId, r.file) && r.maxAge == maxAge)
      && (r.NotFound? ==> forall f | f in Candidates(ParseTileName(name).value) :: !isFile(mapId, f))
  {
    if ValidMapId(mapId) && ParseTileName(name).Some? {
      var c := Candidates(ParseTileName(name).value);
      TryNextFirstExisting(mapId, c, 0, InDir(isFile, mapId), maxAge);
    }
  }
}

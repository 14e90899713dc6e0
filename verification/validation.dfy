/** Payload validation: the per-key path rules of `validatePath`, the lexical
    cleaning `filepath.Clean` applies to an accepted key, and
    `validatePayload`, which checks every key and re-keys the payload by the
    cleaned paths. */
module Validation {
  import opened Values
  import opened Errors
  import opened Paths

  const MaxFileNameLength: nat := 255
  const MaxPathLength: nat := 4096

  /** The desired content and permission bits of one projected file. */
  datatype FileProjection = FileProjection(data: seq<byte>, mode: int32)

  type Payload = map<string, FileProjection>

  /** The number of bytes of the UTF-8 encoding of `c`. */
  function CharBytes(c: char): nat {
    if c as int < 0x80 then 1
    else if c as int < 0x800 then 2
    else if c as int < 0x1_0000 then 3
    else 4
  }

  /** Go's `len` of a string: the length of its UTF-8 encoding. */
  function ByteLen(s: string): (n: nat)
    ensures |s| <= n <= 4 * |s|
  {
    if |s| == 0 then 0 else CharBytes(s[0]) + ByteLen(s[1..])
  }

  /** A string whose characters all take `w` bytes is `w` bytes per
      character long; in particular an ASCII string is as long in bytes as
      in characters. */
  lemma {:induction false} ByteLenUniform(s: string, w: nat)
    requires forall i :: 0 <= i < |s| ==> CharBytes(s[i]) == w
    ensures ByteLen(s) == w * |s|
  {
    if |s| > 0 {
      ByteLenUniform(s[1..], w);
    }
  }

  predicate NoDotDot(items: seq<string>) {
    forall i :: 0 <= i < |items| ==> items[i] != ".."
  }

  predicate ShortNames(items: seq<string>) {
    forall i :: 0 <= i < |items| ==> ByteLen(items[i]) <= MaxFileNameLength
  }

  /** A segment in the namespace the writer reserves for itself: it starts
      with `..` and is longer than two characters. */
  predicate IsReserved(seg: string) {
    |seg| > 2 && seg[..2] == ".."
  }

  /** The declarative acceptance condition for one payload key. */
  predicate ValidPath(p: string) {
    && p != ""
    && p[0] != Sep
    && ByteLen(p) <= MaxPathLength
    && NoDotDot(Split(p))
    && ShortNames(Split(p))
    && !IsReserved(Split(p)[0])
  }

  /** Index of the first item that is `..` or longer than the name limit
      (in bytes), or the number of items when there is none: the items loop
      checks `..` before the length of each item. */
  function FirstBadItem(items: seq<string>): (i: nat)
    ensures i <= |items|
    ensures forall j :: 0 <= j < i ==> items[j] != ".." && ByteLen(items[j]) <= MaxFileNameLength
    ensures i < |items| ==> items[i] == ".." || ByteLen(items[i]) > MaxFileNameLength
  {
    if |items| == 0 then 0
    else if items[0] == ".." || ByteLen(items[0]) > MaxFileNameLength then 0
    else 1 + FirstBadItem(items[1..])
  }

  /** `validatePath`: the rules are tried in order and the first that fires
      names the error. */
  function ValidatePath(p: string): (r: Option<PathError>)
    ensures r.None? <==> ValidPath(p)
    ensures r == Some(Empty) <==> p == ""
    ensures r == Some(Absolute) <==> p != "" && p[0] == Sep
    ensures r == Some(TooLong) <==> p != "" && p[0] != Sep && ByteLen(p) > MaxPathLength
    ensures r == Some(DotDotElement) ==> !NoDotDot(Split(p))
    ensures r == Some(NameTooLong) ==> !ShortNames(Split(p))
    ensures r == Some(ReservedPrefix) ==>
              NoDotDot(Split(p)) && ShortNames(Split(p)) && IsReserved(Split(p)[0])
  {
    if p == "" then Some(Empty)
    else if p[0] == Sep then Some(Absolute)
    else if ByteLen(p) > MaxPathLength then Some(TooLong)
    else
      var items := Split(p);
      var i := FirstBadItem(items);
      if i < |items| then
        (if items[i] == ".." then Some(DotDotElement) else Some(NameTooLong))
      else if IsReserved(items[0]) then Some(ReservedPrefix)
      else None
  }

  // ---------------------------------------------------------------------------
  // Cleaning

  /** The inputs on which the model of `filepath.Clean` is defined: relative
      paths without a `..` element (every accepted key is one). */
  predicate Cleanable(p: string) {
    (p == "" || p[0] != Sep) && NoDotDot(Split(p))
  }

  /** The segments cleaning keeps: neither empty nor `.`. */
  function Kept(items: seq<string>): (r: seq<string>)
    ensures |r| <= |items|
    ensures forall i :: 0 <= i < |r| ==> r[i] != "" && r[i] != "." && r[i] in items
  {
    if |items| == 0 then []
    else if items[0] == "" || items[0] == "." then Kept(items[1..])
    else [items[0]] + Kept(items[1..])
  }

  /** `filepath.Clean` on a relative path with no `..` element: empty and `.`
      segments are dropped and the rest rejoined; nothing left gives `.`. */
  function Clean(p: string): string
    requires Cleanable(p)
  {
    var segs := Kept(Split(p));
    if segs == [] then "." else Join(segs)
  }

  /** The segments of a cleaned path are the kept segments of the input. */
  lemma CleanSplit(p: string)
    requires Cleanable(p)
    ensures Clean(p) == "." || Split(Clean(p)) == Kept(Split(p))
  {
    var segs := Kept(Split(p));
    if segs != [] {
      SplitPieces(p);
      forall i | 0 <= i < |segs| ensures Sep !in segs[i] {
        var j :| 0 <= j < |Split(p)| && Split(p)[j] == segs[i];
      }
      SplitJoin(segs);
    }
  }

  lemma {:induction false} KeptIdempotent(items: seq<string>)
    ensures Kept(Kept(items)) == Kept(items)
  {
    if |items| > 0 {
      KeptIdempotent(items[1..]);
    }
  }

  lemma CleanDot()
    ensures Cleanable(".") && Clean(".") == "."
  {
    SplitNoSep(".");
    assert Kept(["."]) == [];
  }

  /** A join whose first piece is a non-empty separator-free name does not
      start with a separator. */
  lemma JoinFirstChar(segs: seq<string>)
    requires |segs| >= 1 && segs[0] != "" && Sep !in segs[0]
    ensures Join(segs) != "" && Join(segs)[0] == segs[0][0] && Join(segs)[0] != Sep
  {
    assert segs[0][0] in segs[0];
    if |segs| > 1 {
      assert Join(segs) == segs[0] + ([Sep] + Join(segs[1..]));
    }
  }

  lemma KeptNoDotDot(items: seq<string>)
    requires NoDotDot(items)
    ensures NoDotDot(Kept(items))
  {
    var k := Kept(items);
    forall i | 0 <= i < |k| ensures k[i] != ".." {
      var j :| 0 <= j < |items| && items[j] == k[i];
    }
  }

  /** A cleaned path can be cleaned again, and cleaning it changes nothing. */
  lemma CleanIdempotent(p: string)
    requires Cleanable(p)
    ensures Cleanable(Clean(p))
    ensures Clean(Clean(p)) == Clean(p)
  {
    var segs := Kept(Split(p));
    if segs == [] {
      CleanDot();
    } else {
      CleanSplit(p);
      JoinFirstChar(segs);
      KeptNoDotDot(Split(p));
      KeptIdempotent(Split(p));
    }
  }

  /** Dropping empty and `.` segments never makes the joined path longer. */
  lemma {:induction false} KeptJoinShorter(items: seq<string>)
    requires |items| >= 1
    requires Kept(items) != []
    ensures |Join(Kept(items))| <= |Join(items)|
  {
    var k := Kept(items);
    if |items| > 1 {
      var rest := items[1..];
      if items[0] == "" || items[0] == "." {
        KeptJoinShorter(rest);
      } else if Kept(rest) == [] {
        assert k == [items[0]];
      } else {
        KeptJoinShorter(rest);
        assert k == [items[0]] + Kept(rest);
        assert k[1..] == Kept(rest);
      }
    }
  }

  /** Cleaning an accepted key keeps it inside every limit the validator
      checks except the reserved prefix: it is non-empty, relative, no longer
      than the input, free of `..` elements and of over-long names. */
  lemma CleanKeepsLimits(p: string)
    requires ValidPath(p)
    ensures var c := Clean(p);
      && c != "" && c[0] != Sep
      && |c| <= |p|
      && NoDotDot(Split(c)) && ShortNames(Split(c))
  {
    var c := Clean(p);
    CleanIdempotent(p);
    CleanSplit(p);
    if c != "." {
      var segs := Kept(Split(p));
      JoinSplit(p);
      KeptJoinShorter(Split(p));
      forall i | 0 <= i < |segs| ensures ByteLen(segs[i]) <= MaxFileNameLength {
        var j :| 0 <= j < |Split(p)| && Split(p)[j] == segs[i];
      }
    } else {
      SplitNoSep(".");
    }
  }

  /** The segments of a cleaned key all occur among the segments of the raw
      key; in particular its first segment does. */
  lemma CleanSegmentsFromRaw(p: string)
    requires Cleanable(p)
    ensures Clean(p) != "." ==> forall s :: s in Split(Clean(p)) ==> s in Split(p)
  {
    CleanSplit(p);
  }

  /** The key `./..data`. */
  const DotSlashData: string := "." + [Sep] + "..data"

  /** The reserved-prefix rule looks at the raw key: `./..data` is accepted
      and cleans to the reserved name `..data`. */
  lemma DotSlashBypassesReservedPrefix()
    ensures ValidatePath(DotSlashData) == None
    ensures Clean(DotSlashData) == "..data"
    ensures IsReserved(FirstSegment(Clean(DotSlashData)))
  {
    DotSlashAccepted();
    DotSlashCleans();
    SplitNoSep("..data");
  }

  lemma DotSlashAccepted()
    ensures ValidPath(DotSlashData)
  {
    SplitDotSlash("..data");
  }

  lemma DotSlashCleans()
    ensures Cleanable(DotSlashData)
    ensures Clean(DotSlashData) == "..data"
  {
    SplitDotSlash("..data");
    assert Kept([".", "..data"]) == ["..data"];
  }

  /** A separator-free name behind `./` splits into `.` and the name. */
  lemma SplitDotSlash(name: string)
    requires Sep !in name
    ensures Split("." + [Sep] + name) == [".", name]
  {
    var p := "." + [Sep] + name;
    FirstSepOfConcat(".", name);
    SplitCons(p);
    ConcatSlices(".", name);
    SplitNoSep(name);
  }

  /** The rejections the validator is documented to make. */
  lemma RejectsEmptyAndAbsolute()
    ensures ValidatePath("") == Some(Empty)
    ensures ValidatePath("/abs") == Some(Absolute)
  {
  }

  lemma RejectsReservedName()
    ensures ValidatePath("..secret") == Some(ReservedPrefix)
  {
    SplitNoSep("..secret");
  }

  /** The key `x/../y`. */
  const XDotDotY: string := "x" + [Sep] + ".." + [Sep] + "y"

  lemma RejectsDotDotElement()
    ensures ValidatePath(XDotDotY) == Some(DotDotElement)
  {
    var q := ".." + [Sep] + "y";
    assert XDotDotY == "x" + [Sep] + q;
    FirstSepOfConcat("x", q);
    SplitCons(XDotDotY);
    ConcatSlices("x", q);
    FirstSepOfConcat("..", "y");
    SplitCons(q);
    ConcatSlices("..", "y");
    assert FirstBadItem(Split(XDotDotY)) == 1;
  }

  lemma RejectsLongPathAndName()
    ensures ValidatePath(seq(MaxPathLength + 1, _ => 'a')) == Some(TooLong)
    ensures ValidatePath(seq(MaxFileNameLength + 1, _ => 'a')) == Some(NameTooLong)
  {
    ByteLenUniform(seq(MaxPathLength + 1, _ => 'a'), 1);
    var long := seq(MaxFileNameLength + 1, _ => 'a');
    ByteLenUniform(long, 1);
    assert Sep !in long by {
      forall i | 0 <= i < |long| ensures long[i] != Sep { }
    }
    SplitNoSep(long);
    assert FirstBadItem(Split(long)) == 0;
  }

  /** The limits count bytes, not characters: a name of 200 two-byte
      characters is 400 bytes long and is rejected, though it has fewer
      than 255 characters. */
  lemma RejectsWideName()
    ensures ValidatePath(seq(200, _ => '\U{E9}')) == Some(NameTooLong)
  {
    var wide := seq(200, _ => '\U{E9}');
    ByteLenUniform(wide, 2);
    assert Sep !in wide by {
      forall i | 0 <= i < |wide| ensures wide[i] != Sep { }
    }
    SplitNoSep(wide);
    assert FirstBadItem(Split(wide)) == 0;
  }


  // ---------------------------------------------------------------------------
  // validatePayload

  /** The set of cleaned keys of the accepted keys of a payload. */
  function CleanKeys(payload: Payload): set<string> {
    set k | k in payload && ValidPath(k) :: Clean(k)
  }

  /** `clean` is a possible result of re-keying `payload` by cleaned paths:
      its keys are exactly the cleaned keys, and each value is the value of
      some input key that cleans to it (which one is unspecified when two keys
      clean alike, as Go map iteration order decides). */
  ghost predicate CleanOf(payload: Payload, clean: Payload) {
    && (forall k :: k in payload ==> ValidPath(k))
    && clean.Keys == CleanKeys(payload)
    && forall c :: c in clean ==>
         exists k :: k in payload && ValidPath(k) && Clean(k) == c && payload[k] == clean[c]
  }

  /** `validatePayload`: fails with the error of an invalid key if there is
      one, and otherwise returns the payload re-keyed by cleaned paths. */
  method ValidatePayload(payload: Payload) returns (r: Res<Payload>)
    ensures r.Err? <==> exists k :: k in payload && !ValidPath(k)
    ensures r.Err? ==> exists k :: k in payload && ValidatePath(k).Some?
                                   && r.error == Error(Validate(k), InvalidPath(ValidatePath(k).value))
    ensures r.Ok? ==> CleanOf(payload, r.value)
  {
    var clean: Payload := map[];
    var remaining := payload.Keys;
    while remaining != {}
      invariant remaining <= payload.Keys
      invariant forall k :: k in payload && k !in remaining ==> ValidPath(k)
      invariant clean.Keys == set k | k in payload && k !in remaining :: Clean(k)
      invariant forall c :: c in clean ==>
                  exists k :: k in payload && k !in remaining && Clean(k) == c && payload[k] == clean[c]
      decreases remaining
    {
      var k :| k in remaining;
      var v := ValidatePath(k);
      if v.Some? {
        return Err(Error(Validate(k), InvalidPath(v.value)));
      }
      clean := clean[Clean(k) := payload[k]];
      remaining := remaining - {k};
    }
    assert CleanKeys(payload) == set k | k in payload && k !in remaining :: Clean(k);
    return Ok(clean);
  }
}

/** The text side of the Tecplot and OBJ readers (tecplot/io.py,
    tecplot/reader.py and grid/tecplot.py): a file is the list of its lines,
    each still ending in its line break, and what a reader raises is a
    `Fail` carrying the Python exception's class. float() is a parameter:
    a `ToFloat` gives the value of a token, or None where float() raises. */
module Readers {
  import opened Util
  import opened Geom
  import opened Text
  import opened Records
  import opened MeshSpec

  datatype PyError = AssertionError | ValueError | RuntimeError | IndexError | TypeError

  datatype Result<T> = Ok(value: T) | Fail(error: PyError)

  type ToFloat = string -> Option<real>

  // ---------------------------------------------------------------------
  // Header and variable list

  const CheckPointHeader: string := "# EXPORT MODE: CHECK_POINT\n"

  /** The first check of read_tecplot in tecplot/reader.py: only files
      exported in CHECK_POINT mode are read. */
  function CheckHeader(lines: seq<string>): (r: Result<()>)
    ensures r.Ok? <==> |lines| > 0 && lines[0] == CheckPointHeader
    ensures lines == [] ==> r == Fail(IndexError)
    ensures lines != [] && lines[0] != CheckPointHeader ==> r == Fail(ValueError)
  {
    if lines == [] then Fail(IndexError)
    else if lines[0] != CheckPointHeader then Fail(ValueError)
    else Ok(())
  }

  /** A header line without its line break (the last line of a file that
      does not end in one) is refused. */
  lemma HeaderNeedsLineBreak(rest: seq<string>)
    ensures CheckHeader(["# EXPORT MODE: CHECK_POINT"] + rest) == Fail(ValueError)
  {
    assert |"# EXPORT MODE: CHECK_POINT"| != |CheckPointHeader|;
  }

  const XVariable: string := "VARIABLES=\"X\","

  /** A token of the variable list naming the ice thickness. */
  predicate NamesHi(v: string) {
    Find(v, "\"Hi\"") != -1 || Find(v, "\"IceThickness\"") != -1
  }

  predicate AnyNamesHi(vs: seq<string>) {
    exists j :: 0 <= j < |vs| && NamesHi(vs[j])
  }

  /** The first token from position i on that names the ice thickness. */
  function FirstHi(vs: seq<string>, i: nat): (r: Option<nat>)
    requires i <= |vs|
    ensures r.Some? ==> i <= r.value < |vs| && NamesHi(vs[r.value])
    ensures r.Some? ==> forall j :: i <= j < r.value ==> !NamesHi(vs[j])
    ensures r.None? ==> forall j :: i <= j < |vs| ==> !NamesHi(vs[j])
    decreases |vs| - i
  {
    if i == |vs| then None else if NamesHi(vs[i]) then Some(i) else FirstHi(vs, i + 1)
  }

  /** parce_variables: (position of the first token naming Hi or
      IceThickness, number of tokens) of the space-separated list, which
      must start with X. */
  function ParseVariables(line: string): (r: Result<(nat, nat)>)
    ensures Split(line, ' ')[0] != XVariable ==> r == Fail(AssertionError)
    ensures Split(line, ' ')[0] == XVariable ==>
      (r.Ok? <==> AnyNamesHi(Split(line, ' ')))
    ensures Split(line, ' ')[0] == XVariable && r.Fail? ==> r.error == ValueError
    ensures r.Ok? ==> var vs := Split(line, ' ');
      r.value.1 == |vs| && r.value.0 < |vs| && NamesHi(vs[r.value.0]) &&
      forall j :: 0 <= j < r.value.0 ==> !NamesHi(vs[j])
  {
    var vs := Split(line, ' ');
    if vs[0] != XVariable then Fail(AssertionError)
    else match FirstHi(vs, 0)
      case None => Fail(ValueError)
      case Some(i) => assert NamesHi(vs[i]); Ok((i, |vs|))
  }

  /** A variable list written as X followed by space-free names is read
      back as the first name naming Hi (counting X as token 0) and the
      number of tokens. */
  lemma VariablesRoundTrip(names: seq<string>, k: nat, line: string)
    requires forall j :: 0 <= j < |names| ==> ' ' !in names[j]
    requires k < |names| && NamesHi(names[k]) && forall j :: 0 <= j < k ==> !NamesHi(names[j])
    requires line == Join([XVariable] + names, ' ')
    ensures ParseVariables(line) == Ok((k + 1, |names| + 1))
  {
    var vs := [XVariable] + names;
    PrefixedNames(names, k);
    JoinSplit(vs, ' ');
    ParseVariablesOf(line, names, k);
  }

  lemma PrefixedNames(names: seq<string>, k: nat)
    requires forall j :: 0 <= j < |names| ==> ' ' !in names[j]
    requires k < |names| && NamesHi(names[k]) && forall j :: 0 <= j < k ==> !NamesHi(names[j])
    ensures var vs := [XVariable] + names;
      (forall j :: 0 <= j < |vs| ==> ' ' !in vs[j]) && FirstHi(vs, 0) == Some(k + 1)
  {
    var vs := [XVariable] + names;
    XVariableFacts();
    forall j | 0 <= j < |vs| ensures ' ' !in vs[j] {
      if j > 0 { assert vs[j] == names[j - 1]; }
    }
    forall j | 0 <= j < k + 1 ensures !NamesHi(vs[j]) {
      if j > 0 { assert vs[j] == names[j - 1]; }
    }
    FirstHiAt(vs, k + 1);
  }

  lemma ParseVariablesOf(line: string, names: seq<string>, k: nat)
    requires Split(line, ' ') == [XVariable] + names && FirstHi([XVariable] + names, 0) == Some(k + 1)
    ensures ParseVariables(line) == Ok((k + 1, |names| + 1))
  {
    var vs := [XVariable] + names;
    assert vs[0] == XVariable && |vs| == |names| + 1;
  }

  /** The X token has no space and does not name Hi. */
  lemma XVariableFacts()
    ensures ' ' !in XVariable && !NamesHi(XVariable)
  {
    forall k | 0 <= k < |XVariable| ensures XVariable[k] != ' ' && XVariable[k] != 'H' && XVariable[k] != 'c' {
    }
    FindMissingChar(XVariable, "\"Hi\"", 1);
    FindMissingChar(XVariable, "\"IceThickness\"", 2);
  }

  /** The search stops at the first token naming Hi. */
  lemma FirstHiAt(vs: seq<string>, k: nat)
    requires k < |vs| && NamesHi(vs[k]) && forall j :: 0 <= j < k ==> !NamesHi(vs[j])
    ensures FirstHi(vs, 0) == Some(k)
  {
    var r := FirstHi(vs, 0);
    assert r.Some?;
    assert !(r.value < k);
    assert !(k < r.value);
  }

  // ---------------------------------------------------------------------
  // OBJ faces

  /** parse_obj_face: a line "f a b c" whose ids may each carry "/..."
      texture and normal references, which are dropped before int(). The
      source's branch for ids without '/' is never taken: splitting always
      yields a first piece. */
  function ParseObjFace(line: string): (r: Result<seq<int>>)
    ensures |Split(line, ' ')| != 4 || Split(line, ' ')[0] != "f" ==> r == Fail(AssertionError)
    ensures r.Fail? ==> r.error == AssertionError || r.error == ValueError
    ensures r.Ok? ==> |r.value| == 3
  {
    var ids := Split(line, ' ');
    if |ids| != 4 || ids[0] != "f" then Fail(AssertionError)
    else
      var a, b, c := ParseInt(Split(ids[1], '/')[0]), ParseInt(Split(ids[2], '/')[0]),
                     ParseInt(Split(ids[3], '/')[0]);
      if a.None? || b.None? || c.None? then Fail(ValueError) else Ok([a.value, b.value, c.value])
  }

  /** An id followed by a reference tail ("" or "/...") and whitespace
      splits at '/' into the id (with the whitespace when there is no
      tail). */
  lemma FirstPiece(x: string, t: string, w: string)
    requires '/' !in x && '/' !in w
    requires t == [] || t[0] == '/'
    ensures Split(x + t + w, '/')[0] == if t == [] then x + w else x
  {
    if t == [] {
      assert x + t + w == x + w;
      SplitNoSeparator(x + w, '/');
    } else {
      assert x + t + w == x + ['/'] + (t[1..] + w);
      SplitAfterPiece(x, '/', t[1..] + w);
    }
  }

  /** One id of a face line, with its reference tail and trailing
      whitespace, is read back. */
  lemma ObjIdRoundTrip(i: int, t: string, w: string)
    requires AllSpace(w) && (t == [] || t[0] == '/')
    ensures ParseInt(Split(IntString(i) + t + w, '/')[0]) == Some(i)
  {
    var s := IntString(i);
    IntStringChars(i, '/');
    assert '/' !in w;
    FirstPiece(s, t, w);
    var pad: string := if t == [] then w else [];
    assert s + pad == if t == [] then s + w else s;
    IntRoundTripRight(i, pad);
  }

  /** Reading a face line "f a/.. b/.. c/.." gives the three ids back,
      whatever references follow them and whatever whitespace ends the
      line. */
  lemma ObjFaceRoundTrip(a: int, b: int, c: int, ta: string, tb: string, tc: string, w: string)
    requires ' ' !in ta && ' ' !in tb && ' ' !in tc && ' ' !in w && AllSpace(w)
    requires (ta == [] || ta[0] == '/') && (tb == [] || tb[0] == '/') && (tc == [] || tc[0] == '/')
    ensures ParseObjFace(Join(["f", IntString(a) + ta, IntString(b) + tb, IntString(c) + tc + w], ' '))
            == Ok([a, b, c])
  {
    var parts := ["f", IntString(a) + ta, IntString(b) + tb, IntString(c) + tc + w];
    IntStringChars(a, ' '); IntStringChars(b, ' '); IntStringChars(c, ' ');
    JoinSplit(parts, ' ');
    ObjIdRoundTrip(a, ta, "");
    ObjIdRoundTrip(b, tb, "");
    ObjIdRoundTrip(c, tc, w);
    assert IntString(a) + ta + "" == parts[1] && IntString(b) + tb + "" == parts[2];
    ParseObjFaceOf(Join(parts, ' '), parts, a, b, c);
  }

  /** A face line whose pieces read back as a, b and c parses to them. */
  lemma ParseObjFaceOf(line: string, parts: seq<string>, a: int, b: int, c: int)
    requires Split(line, ' ') == parts && |parts| == 4 && parts[0] == "f"
    requires ParseInt(Split(parts[1], '/')[0]) == Some(a)
    requires ParseInt(Split(parts[2], '/')[0]) == Some(b)
    requires ParseInt(Split(parts[3], '/')[0]) == Some(c)
    ensures ParseObjFace(line) == Ok([a, b, c])
  {
  }

  // ---------------------------------------------------------------------
  // Values and counts

  /** parser: the text None and a bare line break stand for a missing
      value; any other token goes through float(), which may raise. */
  function ParseValue(toFloat: ToFloat, s: string): (r: Result<Option<real>>)
    ensures r == Ok(None) <==> s == "None" || s == "\n"
    ensures r.Fail? <==> s != "None" && s != "\n" && toFloat(s).None?
    ensures r.Fail? ==> r.error == ValueError
    ensures r.Ok? && r.value.Some? ==> toFloat(s) == r.value
  {
    if s == "None" || s == "\n" then Ok(None)
    else match toFloat(s)
      case None => Fail(ValueError)
      case Some(v) => Ok(Some(v))
  }

  /** float() applied directly, as tecplot/reader.py and grid/tecplot.py do:
      never a missing value. */
  function StrictValue(toFloat: ToFloat, s: string): (r: Result<Option<real>>)
    ensures r.Ok? ==> r.value.Some? && toFloat(s) == r.value
    ensures r.Fail? <==> toFloat(s).None?
    ensures r.Fail? ==> r.error == ValueError
  {
    match toFloat(s)
    case None => Fail(ValueError)
    case Some(v) => Ok(Some(v))
  }

  const ElementsMarker: string := "ELEMENTS ="

  /** number_of_faces: int() of what follows "ELEMENTS =" (ten characters).
      When the line has no such text, find gives -1 and the slice starts at
      index 9. None is int()'s ValueError. */
  function NumberOfFaces(line: string): Option<int> {
    var start := Find(line, ElementsMarker) + |ElementsMarker|;
    ParseInt(if start <= |line| then line[start..] else "")
  }

  /** The count of a line "ELEMENTS = n" is read back. */
  lemma NumberOfFacesSpaced(n: int, w: string)
    requires AllSpace(w)
    ensures NumberOfFaces(ElementsMarker + IntString(n) + w) == Some(n)
  {
    var rest := IntString(n) + w;
    var line := ElementsMarker + rest;
    assert line == ElementsMarker + IntString(n) + w;
    assert OccursAt(line, ElementsMarker, 0);
    assert Find(line, ElementsMarker) == 0;
    assert line[|ElementsMarker|..] == rest;
    IntRoundTripRight(n, w);
  }

  /** The count of a line "ELEMENTS=n", the form the writers produce, is
      read back as well: "ELEMENTS =" is not found, and the slice from index
      9 happens to start right after the '='. */
  lemma NumberOfFacesUnspaced(n: int, w: string)
    requires AllSpace(w)
    ensures NumberOfFaces("ELEMENTS=" + IntString(n) + w) == Some(n)
  {
    var line := "ELEMENTS=" + IntString(n) + w;
    var s := IntString(n);
    IntStringChars(n, '=');
    forall k | 9 <= k < |line| ensures line[k] != '=' {
      if k < 9 + |s| {
        assert line[k] == s[k - 9];
      } else {
        assert line[k] == w[k - 9 - |s|];
      }
    }
    forall j: nat ensures !OccursAt(line, ElementsMarker, j) {
      if j + 10 <= |line| {
        assert line[j..j + 10][9] == line[j + 9];
      }
    }
    assert Find(line, ElementsMarker) == -1;
    assert line[9..] == s + w;
    IntRoundTripRight(n, w);
  }

  /** number_of_zones: the occurrences of "ZONE T" in the lines joined by
      spaces; there are none exactly when the text does not occur, and the
      count cannot exceed what the text has room for. */
  function NumberOfZones(lines: seq<string>): (r: nat)
    ensures r == 0 <==> Find(Join(lines, ' '), "ZONE T") == -1
    ensures r * 6 <= |Join(lines, ' ')|
  {
    Count(Join(lines, ' '), "ZONE T")
  }

  // ---------------------------------------------------------------------
  // Zones: parce_nodes_and_faces

  /** A column parser with float() fixed: tecplot/io.py's `parser`
      (ParseValue, where "None" and a line break are missing values), or
      float() itself (StrictValue). */
  datatype Parse = Lenient(toFloat: ToFloat) | Strict(toFloat: ToFloat) {
    function Apply(s: string): Result<Option<real>> {
      match this
      case Lenient(f) => ParseValue(f, s)
      case Strict(f) => StrictValue(f, s)
    }
  }

  /** Python's s[:-1] on a list. */
  function DropLastItem<T>(s: seq<T>): (r: seq<T>)
    ensures |r| == if s == [] then 0 else |s| - 1
    ensures forall k :: 0 <= k < |r| ==> r[k] == s[k]
  {
    if s == [] then [] else s[..|s| - 1]
  }

  /** Python's lines[k:]. */
  function LinesFrom(lines: seq<string>, k: nat): (r: seq<string>)
    ensures |r| == if k <= |lines| then |lines| - k else 0
    ensures forall j :: 0 <= j < |r| ==> r[j] == lines[k + j]
  {
    if k <= |lines| then lines[k..] else []
  }

  /** What a list-building loop has produced so far, followed by what the
      rest of the loop produces, unless the rest raises. */
  function Prepend<T>(done: seq<T>, rest: Result<seq<T>>): (r: Result<seq<T>>)
    ensures r.Fail? <==> rest.Fail?
    ensures r.Fail? ==> r.error == rest.error
    ensures r.Ok? ==> r.value == done + rest.value
    ensures done == [] ==> r == rest
  {
    match rest
    case Fail(e) => Fail(e)
    case Ok(s) => assert done == [] ==> done + s == s; Ok(done + s)
  }

  lemma PrependTwice<T>(a: seq<T>, b: seq<T>, rest: Result<seq<T>>)
    ensures Prepend(a, Prepend(b, rest)) == Prepend(a + b, rest)
  {
    if rest.Ok? {
      assert a + (b + rest.value) == a + b + rest.value;
    }
  }

  function Min3(a: nat, b: nat, c: nat): nat {
    if a <= b && a <= c then a else if b <= c then b else c
  }

  datatype Triple = Triple(x: Option<real>, y: Option<real>, z: Option<real>)

  /** One round of `zip(map(parse, xs), map(parse, ys), map(parse, zs))`:
      it pulls from xs, then ys, then zs, and stops as soon as one of them
      is exhausted; a token that `parse` rejects raises when it is pulled,
      even in the round that then finds a later column exhausted. */
  datatype Round = Stop | Raised(error: PyError) | Got(t: Triple)

  function ZipRound(xs: seq<string>, ys: seq<string>, zs: seq<string>, parse: Parse, i: nat): (r: Round)
    ensures r.Got? <==> i < |xs| && i < |ys| && i < |zs| && parse.Apply(xs[i]).Ok? && parse.Apply(ys[i]).Ok? && parse.Apply(zs[i]).Ok?
    ensures r.Got? ==> r.t == Triple(parse.Apply(xs[i]).value, parse.Apply(ys[i]).value, parse.Apply(zs[i]).value)
  {
    if i >= |xs| then Stop
    else match parse.Apply(xs[i])
      case Fail(e) => Raised(e)
      case Ok(x) =>
        if i >= |ys| then Stop
        else match parse.Apply(ys[i])
          case Fail(e) => Raised(e)
          case Ok(y) =>
            if i >= |zs| then Stop
            else match parse.Apply(zs[i])
              case Fail(e) => Raised(e)
              case Ok(z) => Got(Triple(x, y, z))
  }

  /** The rounds from i on of `for x, y, z in zip(...)`. */
  function ZipFrom(xs: seq<string>, ys: seq<string>, zs: seq<string>, parse: Parse, i: nat)
    : (r: Result<seq<Triple>>)
    ensures r.Ok? ==> |r.value| == if i <= Min3(|xs|, |ys|, |zs|) then Min3(|xs|, |ys|, |zs|) - i else 0
    ensures r.Ok? ==> forall k :: 0 <= k < |r.value| ==>
      parse.Apply(xs[i + k]) == Ok(r.value[k].x) && parse.Apply(ys[i + k]) == Ok(r.value[k].y) &&
      parse.Apply(zs[i + k]) == Ok(r.value[k].z)
    decreases |xs| - i
  {
    match ZipRound(xs, ys, zs, parse, i)
    case Stop => Ok([])
    case Raised(e) => Fail(e)
    case Got(t) => Prepend([t], ZipFrom(xs, ys, zs, parse, i + 1))
  }

  /** Columns whose every token parses are zipped without raising. */
  lemma {:induction false} ZipAllParse(xs: seq<string>, ys: seq<string>, zs: seq<string>, parse: Parse, i: nat)
    requires forall k :: 0 <= k < |xs| ==> parse.Apply(xs[k]).Ok?
    requires forall k :: 0 <= k < |ys| ==> parse.Apply(ys[k]).Ok?
    requires forall k :: 0 <= k < |zs| ==> parse.Apply(zs[k]).Ok?
    ensures ZipFrom(xs, ys, zs, parse, i).Ok?
    decreases |xs| - i
  {
    if i < |xs| && i < |ys| && i < |zs| {
      ZipAllParse(xs, ys, zs, parse, i + 1);
    }
  }

  predicate Complete(t: Triple) {
    t.x.Some? && t.y.Some? && t.z.Some?
  }

  /** The nodes the loop over the triples builds: a triple with a missing
      coordinate is skipped; with `numbered` the k-th node kept gets Id k
      (tecplot/io.py), otherwise no Id. */
  function NodesOf(ts: seq<Triple>, numbered: bool): (r: seq<NodeRec>)
    ensures |r| <= |ts|
    ensures forall k :: 0 <= k < |r| ==> r[k] == NewNode(r[k].pos, if numbered then Some(k + 1) else None)
    ensures (forall k :: 0 <= k < |ts| ==> Complete(ts[k])) ==>
      (|r| == |ts| && forall k :: 0 <= k < |r| ==> r[k].pos == Vec(ts[k].x.value, ts[k].y.value, ts[k].z.value))
    ensures (forall k :: 0 <= k < |ts| ==> !Complete(ts[k])) ==> r == []
    decreases |ts|
  {
    if ts == [] then []
    else
      var prev := NodesOf(ts[..|ts| - 1], numbered);
      var t := ts[|ts| - 1];
      if Complete(t) then
        prev + [NewNode(Vec(t.x.value, t.y.value, t.z.value), if numbered then Some(|prev| + 1) else None)]
      else prev
  }

  function NodesResult(r: Result<seq<Triple>>, numbered: bool): Result<seq<NodeRec>> {
    match r
    case Fail(e) => Fail(e)
    case Ok(ts) => Ok(NodesOf(ts, numbered))
  }

  /** The node loop of parce_nodes_and_faces. */
  method CollectNodes(xs: seq<string>, ys: seq<string>, zs: seq<string>, parse: Parse, numbered: bool)
    returns (r: Result<seq<NodeRec>>)
    ensures r == NodesResult(ZipFrom(xs, ys, zs, parse, 0), numbered)
  {
    var nodes: seq<NodeRec> := [];
    ghost var ts: seq<Triple> := [];
    var i := 0;
    while true
      invariant i <= |xs|
      invariant ZipFrom(xs, ys, zs, parse, 0) == Prepend(ts, ZipFrom(xs, ys, zs, parse, i))
      invariant nodes == NodesOf(ts, numbered)
      decreases |xs| - i
    {
      var round := ZipRound(xs, ys, zs, parse, i);
      if round.Stop? {
        assert ZipFrom(xs, ys, zs, parse, i) == Ok([]);
        assert ts + [] == ts;
        return Ok(nodes);
      } else if round.Raised? {
        assert ZipFrom(xs, ys, zs, parse, i) == Fail(round.error);
        return Fail(round.error);
      }
      var t := round.t;
      if Complete(t) {
        nodes := nodes + [NewNode(Vec(t.x.value, t.y.value, t.z.value),
                                  if numbered then Some(|nodes| + 1) else None)];
      }
      PrependTwice(ts, [t], ZipFrom(xs, ys, zs, parse, i + 1));
      assert (ts + [t])[..|ts|] == ts;
      ts := ts + [t];
      i := i + 1;
    }
  }

  /** How each reader turns a connectivity line into node ids. */
  datatype RowRule =
    | IoRule      // tecplot/io.py
    | ReaderRule  // tecplot/reader.py
    | GridRule    // grid/tecplot.py

  /** int() of every token, None when one is rejected. */
  function Ints(tokens: seq<string>): (r: Option<seq<int>>)
    ensures r.Some? ==> |r.value| == |tokens|
    decreases |tokens|
  {
    if tokens == [] then Some([])
    else match Ints(tokens[..|tokens| - 1])
      case None => None
      case Some(init) =>
        match ParseInt(tokens[|tokens| - 1])
        case None => None
        case Some(v) => Some(init + [v])
  }

  /** Ints gives, in order, what int() makes of each token, and gives
      None exactly when int() rejects one of them. */
  lemma {:induction false} IntsMeaning(tokens: seq<string>)
    ensures Ints(tokens).Some? ==>
      forall k :: 0 <= k < |tokens| ==> ParseInt(tokens[k]) == Some(Ints(tokens).value[k])
    ensures Ints(tokens).None? <==> exists k :: 0 <= k < |tokens| && ParseInt(tokens[k]).None?
    decreases |tokens|
  {
    if tokens != [] {
      var n := |tokens| - 1;
      var front := tokens[..n];
      IntsMeaning(front);
      match Ints(front) {
        case None =>
          var k :| 0 <= k < n && ParseInt(front[k]).None?;
          assert front[k] == tokens[k];
        case Some(init) =>
          if ParseInt(tokens[n]).Some? {
            var r := init + [ParseInt(tokens[n]).value];
            forall k | 0 <= k < |tokens| ensures ParseInt(tokens[k]) == Some(r[k]) {
              if k < n {
                assert front[k] == tokens[k] && r[k] == init[k];
              }
            }
          }
      }
    }
  }

  /** `ids[0] == ids[1] or ids[1] == ids[2] or ids[0] == ids[2]` raising
      `err`, with Python's short-circuit evaluation: a list too short for
      the next comparison raises IndexError, but only once the earlier
      comparisons have come out false. */
  function DuplicateCheck<T(==)>(ids: seq<T>, err: PyError): (r: Result<()>)
    ensures |ids| >= 3 ==> (r.Ok? <==> ids[0] != ids[1] && ids[1] != ids[2] && ids[0] != ids[2])
    ensures |ids| >= 3 && r.Fail? ==> r.error == err
    ensures |ids| < 2 ==> r == Fail(IndexError)
    ensures |ids| == 2 ==> r == Fail(if ids[0] == ids[1] then err else IndexError)
  {
    if |ids| < 2 then Fail(IndexError)
    else if ids[0] == ids[1] then Fail(err)
    else if |ids| < 3 then Fail(IndexError)
    else if ids[1] == ids[2] || ids[0] == ids[2] then Fail(err)
    else Ok(())
  }

  /** What reading one connectivity line gives: the ids, text ids (kept
      by tecplot/io.py when int() fails; set_faces cannot use them), or an
      exception. */
  datatype RowOutcome = Ids(ids: seq<int>) | TextIds | Raise(error: PyError)

  /** One connectivity line: tecplot/io.py drops the last token when there
      are more than three, tries int() and checks duplicates, on the ints or
      else on the text; tecplot/reader.py converts every token and raises
      RuntimeError on duplicates; grid/tecplot.py drops the last token and
      converts the rest, without a duplicate check. */
  function ReadRow(rule: RowRule, line: string): (r: RowOutcome)
    ensures r.Ids? && rule != GridRule ==>
      |r.ids| >= 3 && r.ids[0] != r.ids[1] && r.ids[1] != r.ids[2] && r.ids[0] != r.ids[2]
    ensures r.TextIds? ==> rule == IoRule
  {
    match rule
    case IoRule =>
      var split := Split(line, ' ');
      var tokens := if |split| > 3 then DropLastItem(split) else split;
      (match Ints(tokens)
       case Some(ids) => (match DuplicateCheck(ids, ValueError)
                          case Ok(_) => Ids(ids)
                          case Fail(e) => Raise(e))
       case None => (match DuplicateCheck(tokens, ValueError)
                     case Ok(_) => TextIds
                     case Fail(e) => Raise(e)))
    case ReaderRule =>
      (match Ints(Split(line, ' '))
       case None => Raise(ValueError)
       case Some(ids) => (match DuplicateCheck(ids, RuntimeError)
                          case Ok(_) => Ids(ids)
                          case Fail(e) => Raise(e)))
    case GridRule =>
      (match Ints(DropLastItem(Split(line, ' ')))
       case None => Raise(ValueError)
       case Some(ids) => Ids(ids))
  }

  /** Tokens that all convert give their values. */
  lemma {:induction false} IntsAll(tokens: seq<string>, vals: seq<int>)
    requires |tokens| == |vals| && forall k :: 0 <= k < |tokens| ==> ParseInt(tokens[k]) == Some(vals[k])
    ensures Ints(tokens) == Some(vals)
    decreases |tokens|
  {
    if tokens != [] {
      var n := |tokens| - 1;
      IntsAll(tokens[..n], vals[..n]);
      assert vals[..n] + [vals[n]] == vals;
    }
  }

  /** int() reads an id back. */
  lemma IdRoundTrip(i: int)
    ensures ParseInt(IntString(i)) == Some(i)
  {
    var e: string := [];
    IntRoundTripRight(i, e);
    assert IntString(i) + e == IntString(i);
  }

  /** Three ids, the last one carrying trailing whitespace, convert. */
  lemma IntsOfIds(a: int, b: int, c: int, w: string)
    requires AllSpace(w)
    ensures Ints([IntString(a), IntString(b), IntString(c) + w]) == Some([a, b, c])
  {
    IdRoundTrip(a);
    IdRoundTrip(b);
    IntRoundTripRight(c, w);
    var tokens := [IntString(a), IntString(b), IntString(c) + w];
    IntsAll(tokens, [a, b, c]);
  }

  /** A connectivity line written as three ids, a separating blank and
      the line break splits into four tokens. */
  lemma SplitIdsLine(a: int, b: int, c: int, line: string)
    requires line == Join([IntString(a), IntString(b), IntString(c), "\n"], ' ')
    ensures Split(line, ' ') == [IntString(a), IntString(b), IntString(c), "\n"]
  {
    IntStringChars(a, ' '); IntStringChars(b, ' '); IntStringChars(c, ' ');
    assert ' ' !in "\n" by { assert "\n"[0] != ' '; }
    JoinSplit([IntString(a), IntString(b), IntString(c), "\n"], ' ');
  }

  /** "a b c \n" is read back by tecplot/io.py exactly when the ids are
      distinct, and raises ValueError otherwise. */
  lemma IoRowRoundTrip(a: int, b: int, c: int, line: string)
    requires line == Join([IntString(a), IntString(b), IntString(c), "\n"], ' ')
    ensures ReadRow(IoRule, line) == if a != b && b != c && a != c then Ids([a, b, c]) else Raise(ValueError)
  {
    SplitIdsLine(a, b, c, line);
    var split := Split(line, ' ');
    assert DropLastItem(split) == [IntString(a), IntString(b), IntString(c)];
    assert IntString(c) + "" == IntString(c);
    IntsOfIds(a, b, c, "");
  }

  /** grid/tecplot.py reads the same line back, duplicates included. */
  lemma GridRowRoundTrip(a: int, b: int, c: int, line: string)
    requires line == Join([IntString(a), IntString(b), IntString(c), "\n"], ' ')
    ensures ReadRow(GridRule, line) == Ids([a, b, c])
  {
    SplitIdsLine(a, b, c, line);
    var split := Split(line, ' ');
    assert DropLastItem(split) == [IntString(a), IntString(b), IntString(c)];
    assert IntString(c) + "" == IntString(c);
    IntsOfIds(a, b, c, "");
  }

  /** "a b c\n" is read back by tecplot/reader.py exactly when the ids
      are distinct, and raises RuntimeError otherwise; tecplot/io.py
      reads it back the same way with ValueError. */
  lemma ReaderRowRoundTrip(a: int, b: int, c: int, line: string)
    requires line == Join([IntString(a), IntString(b), IntString(c) + "\n"], ' ')
    ensures ReadRow(ReaderRule, line) == if a != b && b != c && a != c then Ids([a, b, c]) else Raise(RuntimeError)
    ensures ReadRow(IoRule, line) == if a != b && b != c && a != c then Ids([a, b, c]) else Raise(ValueError)
  {
    IntStringChars(a, ' '); IntStringChars(b, ' '); IntStringChars(c, ' ');
    assert ' ' !in IntString(c) + "\n" by {
      forall k | 0 <= k < |IntString(c) + "\n"| ensures (IntString(c) + "\n")[k] != ' ' {
        if k < |IntString(c)| {
          assert (IntString(c) + "\n")[k] == IntString(c)[k];
        }
      }
    }
    JoinSplit([IntString(a), IntString(b), IntString(c) + "\n"], ' ');
    assert AllSpace("\n") by { assert IsSpace("\n"[0]); }
    IntsOfIds(a, b, c, "\n");
  }

  /** Face j's Id: `Face(j)` in tecplot/io.py, `Face()` in the others. */
  function FaceId(rule: RowRule, j: nat): Option<int> {
    if rule == IoRule then Some(j) else None
  }

  /** The face a row that does not raise gives. */
  function RowFace(rule: RowRule, j: nat, o: RowOutcome): FaceRec {
    if o.Ids? then NewFace(FaceId(rule, j)).(nodesIds := o.ids) else NewFace(FaceId(rule, j))
  }

  /** What each connectivity line gives, one outcome per line. */
  function Outcomes(rule: RowRule, rows: seq<string>): (r: seq<RowOutcome>)
    ensures |r| == |rows|
  {
    if rows == [] then [] else Outcomes(rule, rows[..|rows| - 1]) + [ReadRow(rule, rows[|rows| - 1])]
  }

  /** Outcome k is what line k gives. */
  lemma {:induction false} OutcomeAt(rule: RowRule, rows: seq<string>, k: nat)
    requires k < |rows|
    ensures Outcomes(rule, rows)[k] == ReadRow(rule, rows[k])
    decreases |rows|
  {
    var n := |rows| - 1;
    if k < n {
      OutcomeAt(rule, rows[..n], k);
      assert rows[..n][k] == rows[k];
    }
  }

  /** The face loop from row j on, given what each row gives; the first
      row that raises ends the zone. */
  function FacesFrom(rule: RowRule, outs: seq<RowOutcome>, j: nat): (r: Result<seq<FaceRec>>)
    ensures r.Ok? ==> |r.value| == if j <= |outs| then |outs| - j else 0
    decreases |outs| - j
  {
    if j >= |outs| then Ok([])
    else if outs[j].Raise? then Fail(outs[j].error)
    else Prepend([RowFace(rule, j, outs[j])], FacesFrom(rule, outs, j + 1))
  }

  /** Face k of an accepted zone is the face its row gives, and no row
      raised. */
  lemma {:induction false} FacesFromRows(rule: RowRule, outs: seq<RowOutcome>, j: nat)
    requires FacesFrom(rule, outs, j).Ok?
    ensures var r := FacesFrom(rule, outs, j).value;
      forall k :: j <= k < |outs| ==> !outs[k].Raise? && r[k - j] == RowFace(rule, k, outs[k])
    decreases |outs| - j
  {
    if j < |outs| {
      FacesFromRows(rule, outs, j + 1);
      var r := FacesFrom(rule, outs, j).value;
      var rest := FacesFrom(rule, outs, j + 1).value;
      forall k | j <= k < |outs| ensures !outs[k].Raise? && r[k - j] == RowFace(rule, k, outs[k]) {
        if k > j {
          assert r[k - j] == rest[k - (j + 1)];
        }
      }
    }
  }

  /** Face k of an accepted zone is the face that connectivity line k
      (counted from line `from`) gives, and no such line raised. */
  lemma LineFaces(rule: RowRule, lines: seq<string>, from: nat)
    requires FacesFrom(rule, Outcomes(rule, LinesFrom(lines, from)), 0).Ok?
    ensures forall j :: from <= j < |lines| ==> !ReadRow(rule, lines[j]).Raise?
    ensures var r := FacesFrom(rule, Outcomes(rule, LinesFrom(lines, from)), 0).value;
      forall k :: 0 <= k < |r| ==> r[k] == RowFace(rule, k, ReadRow(rule, lines[from + k]))
  {
    var rows := LinesFrom(lines, from);
    var outs := Outcomes(rule, rows);
    var r := FacesFrom(rule, outs, 0).value;
    FacesFromRows(rule, outs, 0);
    forall j | from <= j < |lines| ensures !ReadRow(rule, lines[j]).Raise? {
      OutcomeAt(rule, rows, j - from);
      assert rows[j - from] == lines[j];
    }
    forall k | 0 <= k < |r| ensures r[k] == RowFace(rule, k, ReadRow(rule, lines[from + k])) {
      OutcomeAt(rule, rows, k);
      assert r[k - 0] == RowFace(rule, k, outs[k]);
    }
  }

  /** The zone's faces are refused exactly when one of its rows raises,
      and then with that row's exception. */
  lemma {:induction false} FacesFromFails(rule: RowRule, outs: seq<RowOutcome>, j: nat)
    ensures FacesFrom(rule, outs, j).Fail? <==> exists k :: j <= k < |outs| && outs[k].Raise?
    ensures FacesFrom(rule, outs, j).Fail? ==>
      exists k :: j <= k < |outs| && outs[k] == Raise(FacesFrom(rule, outs, j).error)
    decreases |outs| - j
  {
    if j < |outs| && !outs[j].Raise? {
      FacesFromFails(rule, outs, j + 1);
    }
  }

  /** One round of the face loop: a row that raises ends it with that
      error, any other row adds its face. */
  lemma FacesFromStep(rule: RowRule, outs: seq<RowOutcome>, faces: seq<FaceRec>, j: nat)
    requires j < |outs|
    requires FacesFrom(rule, outs, 0) == Prepend(faces, FacesFrom(rule, outs, j))
    ensures outs[j].Raise? ==> FacesFrom(rule, outs, 0) == Fail(outs[j].error)
    ensures !outs[j].Raise? ==>
      FacesFrom(rule, outs, 0) == Prepend(faces + [RowFace(rule, j, outs[j])], FacesFrom(rule, outs, j + 1))
  {
    if !outs[j].Raise? {
      PrependTwice(faces, [RowFace(rule, j, outs[j])], FacesFrom(rule, outs, j + 1));
    }
  }

  /** The face loop of parce_nodes_and_faces. */
  method CollectFaces(rule: RowRule, rows: seq<string>) returns (r: Result<seq<FaceRec>>)
    ensures r == FacesFrom(rule, Outcomes(rule, rows), 0)
  {
    ghost var outs := Outcomes(rule, rows);
    var faces: seq<FaceRec> := [];
    for j := 0 to |rows|
      invariant FacesFrom(rule, outs, 0) == Prepend(faces, FacesFrom(rule, outs, j))
    {
      var o := ReadRow(rule, rows[j]);
      OutcomeAt(rule, rows, j);
      FacesFromStep(rule, outs, faces, j);
      if o.Raise? {
        return Fail(o.error);
      }
      faces := faces + [RowFace(rule, j, o)];
    }
    assert faces + [] == faces;
    return Ok(faces);
  }

  /** A field and the tokens of its line. */
  datatype Column = Column(field: Field, tokens: seq<string>)

  /** Round i of the zip over the field columns from column c on: the
      values, or None when a column is exhausted (the zip stops); a token
      that `parse` rejects raises. */
  function PullRound(cols: seq<Column>, parse: Parse, i: nat, c: nat): (r: Result<Option<seq<Option<real>>>>)
    requires c <= |cols|
    ensures r.Ok? && r.value.Some? ==> |r.value.value| == |cols| - c
    ensures r.Ok? && r.value.Some? ==>
      forall d :: c <= d < |cols| ==> i < |cols[d].tokens| && parse.Apply(cols[d].tokens[i]) == Ok(r.value.value[d - c])
    ensures r == Ok(None) ==> exists d :: c <= d < |cols| && i >= |cols[d].tokens|
    decreases |cols| - c
  {
    if c == |cols| then Ok(Some([]))
    else if i >= |cols[c].tokens| then Ok(None)
    else match parse.Apply(cols[c].tokens[i])
      case Fail(e) => Fail(e)
      case Ok(v) =>
        match PullRound(cols, parse, i, c + 1)
        case Fail(e) => Fail(e)
        case Ok(None) => Ok(None)
        case Ok(Some(vs)) => Ok(Some([v] + vs))
  }

  /** `f.T = t_` and the like: None unsets the field. */
  function SetField(vals: map<Field, real>, fld: Field, v: Option<real>): (r: map<Field, real>)
    ensures v.Some? ==> fld in r && r[fld] == v.value
    ensures v.None? ==> fld !in r
    ensures forall g :: g != fld ==> (g in r <==> g in vals) && (g in r ==> r[g] == vals[g])
  {
    if v.Some? then vals[fld := v.value] else vals - {fld}
  }

  /** The assignments of one round, in column order. */
  function SetFields(vals: map<Field, real>, cols: seq<Column>, vs: seq<Option<real>>): (r: map<Field, real>)
    requires |vs| == |cols|
    decreases |cols|
  {
    if cols == [] then vals
    else SetFields(SetField(vals, cols[0].field, vs[0]), cols[1..], vs[1..])
  }

  /** With distinct fields, each field ends up holding its column's
      value. */
  lemma {:induction false} SetFieldsHolds(vals: map<Field, real>, cols: seq<Column>, vs: seq<Option<real>>, d: nat)
    requires |vs| == |cols| && d < |cols|
    requires forall a, b :: 0 <= a < b < |cols| ==> cols[a].field != cols[b].field
    ensures var r := SetFields(vals, cols, vs);
      (vs[d].Some? ==> cols[d].field in r && r[cols[d].field] == vs[d].value) &&
      (vs[d].None? ==> cols[d].field !in r)
    decreases |cols|
  {
    if d > 0 {
      SetFieldsHolds(SetField(vals, cols[0].field, vs[0]), cols[1..], vs[1..], d - 1);
    } else {
      var mid := SetField(vals, cols[0].field, vs[0]);
      forall e | 0 <= e < |cols[1..]| ensures cols[1..][e].field != cols[0].field {
        assert cols[1..][e] == cols[e + 1];
      }
      SetFieldsOthers(mid, cols[1..], vs[1..], cols[0].field);
    }
  }

  /** A field no column names keeps its value, or stays unset. */
  lemma {:induction false} SetFieldsOthers(vals: map<Field, real>, cols: seq<Column>, vs: seq<Option<real>>, g: Field)
    requires |vs| == |cols|
    requires forall d :: 0 <= d < |cols| ==> cols[d].field != g
    ensures var r := SetFields(vals, cols, vs);
      (g in r <==> g in vals) && (g in r ==> r[g] == vals[g])
    decreases |cols|
  {
    if cols != [] {
      assert cols[0].field != g;
      forall d | 0 <= d < |cols[1..]| ensures cols[1..][d].field != g {
        assert cols[1..][d] == cols[d + 1];
      }
      SetFieldsOthers(SetField(vals, cols[0].field, vs[0]), cols[1..], vs[1..], g);
    }
  }

  /** The rounds from i on of `for f, v1, v2, ... in zip(faces,
      map(parse, column1), map(parse, column2), ...)`: the faces come first,
      so the loop ends without pulling any token once they run out. */
  function FieldsFrom(faces: seq<FaceRec>, cols: seq<Column>, parse: Parse, i: nat): (r: Result<seq<FaceRec>>)
    ensures r.Ok? ==> |r.value| == if i <= |faces| then |faces| - i else 0
    decreases |faces| - i
  {
    if i >= |faces| then Ok([])
    else match PullRound(cols, parse, i, 0)
      case Fail(e) => Fail(e)
      case Ok(None) => Ok(faces[i..])
      case Ok(Some(vs)) =>
        Prepend([faces[i].(vals := SetFields(faces[i].vals, cols, vs))], FieldsFrom(faces, cols, parse, i + 1))
  }

  /** Only the field values of a face change. */
  lemma {:induction false} FieldsFromKeeps(faces: seq<FaceRec>, cols: seq<Column>, parse: Parse, i: nat)
    requires FieldsFrom(faces, cols, parse, i).Ok?
    ensures var r := FieldsFrom(faces, cols, parse, i).value;
      forall k :: 0 <= k < |r| ==> r[k] == faces[i + k].(vals := r[k].vals)
    decreases |faces| - i
  {
    if i < |faces| {
      var r := FieldsFrom(faces, cols, parse, i).value;
      match PullRound(cols, parse, i, 0)
      case Ok(None) =>
        forall k | 0 <= k < |r| ensures r[k] == faces[i + k].(vals := r[k].vals) {
          assert r[k] == faces[i..][k];
        }
      case Ok(Some(vs)) =>
        var rest := FieldsFrom(faces, cols, parse, i + 1).value;
        FieldsFromKeeps(faces, cols, parse, i + 1);
        assert r == [faces[i].(vals := SetFields(faces[i].vals, cols, vs))] + rest;
        forall k | 0 < k < |r| ensures r[k] == faces[i + k].(vals := r[k].vals) {
          assert r[k] == rest[k - 1];
          assert i + k == (i + 1) + (k - 1);
        }
    }
  }

  /** The field values `vals` agree with the parsed token `v`: the token
      was accepted, and the field holds its value, or is unset when the
      value is missing. */
  predicate HoldsValue(vals: map<Field, real>, fld: Field, v: Result<Option<real>>) {
    v.Ok? &&
    (v.value.Some? ==> fld in vals && vals[fld] == v.value.value) &&
    (v.value.None? ==> fld !in vals)
  }

  /** When every column reaches round k and the fields are distinct, face
      k of an accepted assignment holds, in the field of column d, that
      column's k-th value, or does not hold the field when the value is
      missing. */
  lemma FieldAt(faces: seq<FaceRec>, cols: seq<Column>, parse: Parse, i: nat, k: nat, d: nat)
    requires i <= k < |faces| && d < |cols|
    requires forall a, b :: 0 <= a < b < |cols| ==> cols[a].field != cols[b].field
    requires forall e :: 0 <= e < |cols| ==> k < |cols[e].tokens|
    requires FieldsFrom(faces, cols, parse, i).Ok?
    ensures HoldsValue(FieldsFrom(faces, cols, parse, i).value[k - i].vals, cols[d].field, parse.Apply(cols[d].tokens[k]))
  {
    FieldsFromSuffix(faces, cols, parse, i, k);
    var vs := FieldsFromRound(faces, cols, parse, k);
    SetFieldsHolds(faces[k].vals, cols, vs, d);
  }

  /** Face k of the faces assigned from round i on is the first face
      assigned from round k on. */
  lemma {:induction false} FieldsFromSuffix(faces: seq<FaceRec>, cols: seq<Column>, parse: Parse, i: nat, k: nat)
    requires i <= k < |faces|
    requires forall e :: 0 <= e < |cols| ==> k < |cols[e].tokens|
    requires FieldsFrom(faces, cols, parse, i).Ok?
    ensures FieldsFrom(faces, cols, parse, k).Ok?
    ensures |FieldsFrom(faces, cols, parse, k).value| > 0
    ensures FieldsFrom(faces, cols, parse, i).value[k - i] == FieldsFrom(faces, cols, parse, k).value[0]
    decreases k - i
  {
    if i < k {
      FieldsFromTail(faces, cols, parse, i, k);
      FieldsFromSuffix(faces, cols, parse, i + 1, k);
    }
  }

  /** The faces assigned from round i + 1 on are those assigned from round
      i on without the first: face k of the faces is at the same place in
      both. */
  lemma FieldsFromTail(faces: seq<FaceRec>, cols: seq<Column>, parse: Parse, i: nat, k: nat)
    requires i < k < |faces|
    requires forall e :: 0 <= e < |cols| ==> i < |cols[e].tokens|
    requires FieldsFrom(faces, cols, parse, i).Ok?
    ensures FieldsFrom(faces, cols, parse, i + 1).Ok?
    ensures FieldsFrom(faces, cols, parse, i + 1).value == FieldsFrom(faces, cols, parse, i).value[1..]
    ensures FieldsFrom(faces, cols, parse, i).value[k - i] == FieldsFrom(faces, cols, parse, i + 1).value[k - (i + 1)]
  {
    var _ := FieldsFromRound(faces, cols, parse, i);
  }

  /** A round every column reaches assigns the values of that round to
      face i and goes on with face i + 1. */
  lemma FieldsFromRound(faces: seq<FaceRec>, cols: seq<Column>, parse: Parse, i: nat) returns (vs: seq<Option<real>>)
    requires i < |faces|
    requires forall e :: 0 <= e < |cols| ==> i < |cols[e].tokens|
    requires FieldsFrom(faces, cols, parse, i).Ok?
    ensures PullRound(cols, parse, i, 0) == Ok(Some(vs)) && |vs| == |cols|
    ensures forall d :: 0 <= d < |cols| ==> parse.Apply(cols[d].tokens[i]) == Ok(vs[d])
    ensures FieldsFrom(faces, cols, parse, i + 1).Ok?
    ensures FieldsFrom(faces, cols, parse, i).value
      == [faces[i].(vals := SetFields(faces[i].vals, cols, vs))] + FieldsFrom(faces, cols, parse, i + 1).value
  {
    var round := PullRound(cols, parse, i, 0);
    assert round != Ok(None);
    vs := round.value.value;
  }

  /** The loop that assigns the field values of parce_nodes_and_faces. */
  method AssignFields(faces: seq<FaceRec>, cols: seq<Column>, parse: Parse) returns (r: Result<seq<FaceRec>>)
    ensures r == FieldsFrom(faces, cols, parse, 0)
  {
    var done: seq<FaceRec> := [];
    for i := 0 to |faces|
      invariant FieldsFrom(faces, cols, parse, 0) == Prepend(done, FieldsFrom(faces, cols, parse, i))
    {
      var round := PullRound(cols, parse, i, 0);
      if round.Fail? {
        return Fail(round.error);
      } else if round.value.None? {
        return Ok(done + faces[i..]);
      }
      var f := faces[i].(vals := SetFields(faces[i].vals, cols, round.value.value));
      PrependTwice(done, [f], FieldsFrom(faces, cols, parse, i + 1));
      done := done + [f];
    }
    assert done + [] == done;
    return Ok(done);
  }

  // ---------------------------------------------------------------------
  // Zones

  /** The nodes and faces one zone gives. */
  datatype Zone = Zone(nodes: seq<NodeRec>, faces: seq<FaceRec>)

  /** The tokens of a value line without its last item. */
  function Values(line: string): seq<string> {
    DropLastItem(Split(line, ' '))
  }

  /** The node loop, the face loop and the field loop run in that order;
      the first to raise ends the zone. */
  function ZoneOf(nodes: Result<seq<NodeRec>>, faces: Result<seq<FaceRec>>, cols: seq<Column>, parse: Parse)
    : Result<Zone>
  {
    if nodes.Fail? then Fail(nodes.error)
    else if faces.Fail? then Fail(faces.error)
    else match FieldsFrom(faces.value, cols, parse, 0)
      case Fail(e) => Fail(e)
      case Ok(fs) => Ok(Zone(nodes.value, fs))
  }

  /** The field lines of tecplot/io.py: T, Hw and Hi on the two lines
      before Hi's and on Hi's own, indexed as Python does (a negative
      index counts from the end). */
  function IoColumns(lines: seq<string>, hi: int): (r: Option<seq<Column>>)
    ensures r.Some? <==> PyIndex(hi - 2, |lines|).Some? && PyIndex(hi - 1, |lines|).Some? &&
                         PyIndex(hi, |lines|).Some?
    ensures r.Some? ==> |r.value| == 3 && r.value[0].field == T && r.value[1].field == Hw && r.value[2].field == Hi
  {
    var it, ihw, ihi := PyIndex(hi - 2, |lines|), PyIndex(hi - 1, |lines|), PyIndex(hi, |lines|);
    if it.None? || ihw.None? || ihi.None? then None
    else Some([Column(T, Values(lines[it.value])), Column(Hw, Values(lines[ihw.value])),
               Column(Hi, Values(lines[ihi.value]))])
  }

  /** tecplot/io.py parce_nodes_and_faces: coordinates from the first
      three lines, kept whole; connectivity from line `numVars` on; T, Hw
      and Hi around line `hi`. */
  function IoZone(lines: seq<string>, numVars: nat, hi: int, toFloat: ToFloat): Result<Zone> {
    if |lines| < 3 then Fail(IndexError)
    else match IoColumns(lines, hi)
      case None => Fail(IndexError)
      case Some(cols) =>
        ZoneOf(NodesResult(ZipFrom(Split(lines[0], ' '), Split(lines[1], ' '), Split(lines[2], ' '),
                                   Lenient(toFloat), 0), true),
               FacesFrom(IoRule, Outcomes(IoRule, LinesFrom(lines, numVars)), 0),
               cols, Lenient(toFloat))
  }

  /** The three field lines name three different fields. */
  lemma IoColumnsDistinct(lines: seq<string>, hi: int)
    requires IoColumns(lines, hi).Some?
    ensures var cols := IoColumns(lines, hi).value;
      forall a, b :: 0 <= a < b < |cols| ==> cols[a].field != cols[b].field
  {
    var cols := IoColumns(lines, hi).value;
    assert cols[0].field == T && cols[1].field == Hw && cols[2].field == Hi;
  }

  /** The number of value lines before the connectivity lines, in
      tecplot/reader.py and grid/tecplot.py. */
  const ValueLines := 11

  /** The fields of tecplot/reader.py's lines 3 to 10, in order. */
  const ReaderFields: seq<Field> := [T, Hw, Hi, HTC, Beta, TauX, TauY, TauZ]

  /** The field lines of tecplot/reader.py: lines 3 to 10. */
  function ReaderColumns(lines: seq<string>): (r: seq<Column>)
    requires |lines| >= ValueLines
    ensures |r| == 8 && forall d :: 0 <= d < |r| ==> r[d] == Column(ReaderFields[d], Values(lines[d + 3]))
  {
    [Column(T, Values(lines[3])), Column(Hw, Values(lines[4])), Column(Hi, Values(lines[5])),
     Column(HTC, Values(lines[6])), Column(Beta, Values(lines[7])), Column(TauX, Values(lines[8])),
     Column(TauY, Values(lines[9])), Column(TauZ, Values(lines[10]))]
  }

  /** The eight field lines name eight different fields. */
  lemma ReaderColumnsDistinct(lines: seq<string>)
    requires |lines| >= ValueLines
    ensures var cols := ReaderColumns(lines);
      forall a, b :: 0 <= a < b < |cols| ==> cols[a].field != cols[b].field
  {
    var cols := ReaderColumns(lines);
    ReaderFieldsDistinct();
    forall a, b | 0 <= a < b < |cols| ensures cols[a].field != cols[b].field {
      assert cols[a].field == ReaderFields[a] && cols[b].field == ReaderFields[b];
    }
  }

  lemma ReaderFieldsDistinct()
    ensures forall a, b :: 0 <= a < b < |ReaderFields| ==> ReaderFields[a] != ReaderFields[b]
  {
    var fs := ReaderFields;
    assert Position(fs[0]) == 0 && Position(fs[1]) == 1 && Position(fs[2]) == 2 && Position(fs[3]) == 3;
    assert Position(fs[4]) == 4 && Position(fs[5]) == 5 && Position(fs[6]) == 6 && Position(fs[7]) == 7;
    forall a, b | 0 <= a < b < |fs| ensures fs[a] != fs[b] {
      assert Position(fs[a]) == a && Position(fs[b]) == b;
    }
  }

  /** Where a field stands among ReaderFields. */
  function Position(f: Field): nat {
    match f
    case T => 0 case Hw => 1 case Hi => 2 case HTC => 3
    case Beta => 4 case TauX => 5 case TauY => 6 case TauZ => 7
    case _ => 8
  }

  /** tecplot/reader.py parce_nodes_and_faces: eleven value lines, each
      without its last item, read with float(); connectivity from line 11
      on. */
  function ReaderZone(lines: seq<string>, toFloat: ToFloat): Result<Zone> {
    if |lines| < ValueLines then Fail(IndexError)
    else
      ZoneOf(NodesResult(ZipFrom(Values(lines[0]), Values(lines[1]), Values(lines[2]), Strict(toFloat), 0), false),
             FacesFrom(ReaderRule, Outcomes(ReaderRule, LinesFrom(lines, ValueLines)), 0),
             ReaderColumns(lines), Strict(toFloat))
  }

  /** grid/tecplot.py parce_nodes_and_faces: x and y from lines 0 and 1,
      z from line 3, no fields; connectivity from line 11 on. */
  function GridZone(lines: seq<string>, toFloat: ToFloat): Result<Zone> {
    if |lines| < 4 then Fail(IndexError)
    else
      ZoneOf(NodesResult(ZipFrom(Values(lines[0]), Values(lines[1]), Values(lines[3]), Strict(toFloat), 0), false),
             FacesFrom(GridRule, Outcomes(GridRule, LinesFrom(lines, ValueLines)), 0),
             [], Strict(toFloat))
  }

  /** An accepted zone keeps the nodes of the node loop and the faces of
      the face loop, as the field loop leaves them. */
  lemma ZoneParts(nodes: Result<seq<NodeRec>>, faces: Result<seq<FaceRec>>, cols: seq<Column>, parse: Parse)
    requires ZoneOf(nodes, faces, cols, parse).Ok?
    ensures var z := ZoneOf(nodes, faces, cols, parse).value;
      nodes.Ok? && faces.Ok? && z.nodes == nodes.value && |z.faces| == |faces.value| &&
      z.faces == FieldsFrom(faces.value, cols, parse, 0).value
  {
  }

  /** Face k of an accepted zone holds, in the field of column d, that
      column's k-th value, when every column reaches that far and the
      fields are distinct. */
  lemma ZoneFieldAt(nodes: Result<seq<NodeRec>>, faces: Result<seq<FaceRec>>, cols: seq<Column>, parse: Parse, k: nat, d: nat)
    requires ZoneOf(nodes, faces, cols, parse).Ok? && k < |ZoneOf(nodes, faces, cols, parse).value.faces|
    requires d < |cols| && forall a, b :: 0 <= a < b < |cols| ==> cols[a].field != cols[b].field
    requires forall e :: 0 <= e < |cols| ==> k < |cols[e].tokens|
    ensures HoldsValue(ZoneOf(nodes, faces, cols, parse).value.faces[k].vals, cols[d].field, parse.Apply(cols[d].tokens[k]))
  {
    ZoneParts(nodes, faces, cols, parse);
    FieldAt(faces.value, cols, parse, 0, k, d);
    assert ZoneOf(nodes, faces, cols, parse).value.faces[k] == FieldsFrom(faces.value, cols, parse, 0).value[k - 0];
  }

  /** Each face of an accepted zone is the face of the face loop with
      only its field values changed. */
  lemma ZoneFacesKeep(nodes: Result<seq<NodeRec>>, faces: Result<seq<FaceRec>>, cols: seq<Column>, parse: Parse)
    requires ZoneOf(nodes, faces, cols, parse).Ok?
    ensures faces.Ok?
    ensures var z := ZoneOf(nodes, faces, cols, parse).value;
      forall k :: 0 <= k < |z.faces| ==> k < |faces.value| && z.faces[k] == faces.value[k].(vals := z.faces[k].vals)
  {
    ZoneParts(nodes, faces, cols, parse);
    FieldsFromKeeps(faces.value, cols, parse, 0);
    var z, r := ZoneOf(nodes, faces, cols, parse).value, FieldsFrom(faces.value, cols, parse, 0).value;
    forall k | 0 <= k < |z.faces| ensures k < |faces.value| && z.faces[k] == faces.value[k].(vals := z.faces[k].vals) {
      assert z.faces[k] == r[k] == faces.value[0 + k].(vals := r[k].vals);
    }
  }

  /** With float() every coordinate is present, so every triple becomes a
      node: node k sits at the k-th x, y and z. */
  lemma StrictNodes(xs: seq<string>, ys: seq<string>, zs: seq<string>, toFloat: ToFloat)
    requires ZipFrom(xs, ys, zs, Strict(toFloat), 0).Ok?
    ensures var ns := NodesOf(ZipFrom(xs, ys, zs, Strict(toFloat), 0).value, false);
      |ns| == Min3(|xs|, |ys|, |zs|) &&
      forall k :: 0 <= k < |ns| ==>
        ns[k].id.None? && ns[k].pos == Vec(toFloat(xs[k]).value, toFloat(ys[k]).value, toFloat(zs[k]).value)
  {
    var ts := ZipFrom(xs, ys, zs, Strict(toFloat), 0).value;
    forall k | 0 <= k < |ts| ensures Complete(ts[k]) {
      assert Strict(toFloat).Apply(xs[0 + k]) == Ok(ts[k].x);
      assert Strict(toFloat).Apply(ys[0 + k]) == Ok(ts[k].y);
      assert Strict(toFloat).Apply(zs[0 + k]) == Ok(ts[k].z);
    }
  }

  /** What tecplot/io.py accepts: node k has Id k + 1 and no field values;
      there is one face per connectivity line, face k has Id k, no row
      raised, and the face holds its row's ids (none for text ids). */
  lemma IoZoneShape(lines: seq<string>, numVars: nat, hi: int, toFloat: ToFloat)
    requires IoZone(lines, numVars, hi, toFloat).Ok?
    ensures var z := IoZone(lines, numVars, hi, toFloat).value;
      (forall k :: 0 <= k < |z.nodes| ==> z.nodes[k].id == Some(k + 1) && z.nodes[k].vals == map[]) &&
      |z.faces| == |LinesFrom(lines, numVars)| &&
      (forall j :: numVars <= j < |lines| ==> !ReadRow(IoRule, lines[j]).Raise?) &&
      forall k :: 0 <= k < |z.faces| ==>
        z.faces[k].id == Some(k) && z.faces[k].nodes == [] &&
        z.faces[k].nodesIds == (if ReadRow(IoRule, lines[numVars + k]).Ids? then ReadRow(IoRule, lines[numVars + k]).ids else [])
  {
    var cols := IoColumns(lines, hi).value;
    var parse := Lenient(toFloat);
    var nodes := NodesResult(ZipFrom(Split(lines[0], ' '), Split(lines[1], ' '), Split(lines[2], ' '), parse, 0), true);
    var rows := LinesFrom(lines, numVars);
    var outs := Outcomes(IoRule, rows);
    var faces := FacesFrom(IoRule, outs, 0);
    assert IoZone(lines, numVars, hi, toFloat) == ZoneOf(nodes, faces, cols, parse);
    ZoneParts(nodes, faces, cols, parse);
    ZoneFacesKeep(nodes, faces, cols, parse);
    LineFaces(IoRule, lines, numVars);
  }

  /** A connectivity line that raises makes tecplot/io.py refuse the zone. */
  lemma IoZoneRowRaises(lines: seq<string>, numVars: nat, hi: int, toFloat: ToFloat, j: nat)
    requires numVars <= j < |lines| && ReadRow(IoRule, lines[j]).Raise?
    ensures IoZone(lines, numVars, hi, toFloat).Fail?
  {
    if |lines| >= 3 && IoColumns(lines, hi).Some? {
      var rows := LinesFrom(lines, numVars);
      var outs := Outcomes(IoRule, rows);
      OutcomeAt(IoRule, rows, j - numVars);
      assert rows[j - numVars] == lines[j];
      FacesFromFails(IoRule, outs, 0);
    }
  }

  /** Face k of an accepted tecplot/io.py zone holds the k-th T, Hw and Hi
      values, when all three lines reach that far. */
  lemma IoZoneFields(lines: seq<string>, numVars: nat, hi: int, toFloat: ToFloat, k: nat, d: nat)
    requires IoZone(lines, numVars, hi, toFloat).Ok? && k < |IoZone(lines, numVars, hi, toFloat).value.faces|
    requires IoColumns(lines, hi).Some? && d < 3
    requires forall e :: 0 <= e < 3 ==> k < |IoColumns(lines, hi).value[e].tokens|
    ensures var col := IoColumns(lines, hi).value[d];
      HoldsValue(IoZone(lines, numVars, hi, toFloat).value.faces[k].vals, col.field, ParseValue(toFloat, col.tokens[k]))
  {
    var cols := IoColumns(lines, hi).value;
    var parse := Lenient(toFloat);
    var nodes := NodesResult(ZipFrom(Split(lines[0], ' '), Split(lines[1], ' '), Split(lines[2], ' '), parse, 0), true);
    var faces := FacesFrom(IoRule, Outcomes(IoRule, LinesFrom(lines, numVars)), 0);
    assert IoZone(lines, numVars, hi, toFloat) == ZoneOf(nodes, faces, cols, parse);
    IoColumnsDistinct(lines, hi);
    ZoneFieldAt(nodes, faces, cols, parse, k, d);
    assert parse.Apply(cols[d].tokens[k]) == ParseValue(toFloat, cols[d].tokens[k]);
  }

  /** What tecplot/reader.py accepts: node k sits at the k-th x, y and z
      and has no Id; there is one face per connectivity line and it holds
      that line's ids, at least three of them and the first three
      distinct. */
  lemma ReaderZoneShape(lines: seq<string>, toFloat: ToFloat)
    requires ReaderZone(lines, toFloat).Ok?
    ensures var z := ReaderZone(lines, toFloat).value;
      var xs, ys, zs := Values(lines[0]), Values(lines[1]), Values(lines[2]);
      |z.nodes| == Min3(|xs|, |ys|, |zs|) &&
      (forall k :: 0 <= k < |z.nodes| ==>
        z.nodes[k].id.None? && z.nodes[k].pos == Vec(toFloat(xs[k]).value, toFloat(ys[k]).value, toFloat(zs[k]).value)) &&
      |z.faces| == |lines| - ValueLines &&
      forall k :: 0 <= k < |z.faces| ==>
        z.faces[k].id.None? && ReadRow(ReaderRule, lines[ValueLines + k]).Ids? &&
        z.faces[k].nodesIds == ReadRow(ReaderRule, lines[ValueLines + k]).ids &&
        |z.faces[k].nodesIds| >= 3 && z.faces[k].nodesIds[0] != z.faces[k].nodesIds[1] &&
        z.faces[k].nodesIds[1] != z.faces[k].nodesIds[2] && z.faces[k].nodesIds[0] != z.faces[k].nodesIds[2]
  {
    var xs, ys, zs := Values(lines[0]), Values(lines[1]), Values(lines[2]);
    var parse := Strict(toFloat);
    var nodes := NodesResult(ZipFrom(xs, ys, zs, parse, 0), false);
    var rows := LinesFrom(lines, ValueLines);
    var outs := Outcomes(ReaderRule, rows);
    var faces := FacesFrom(ReaderRule, outs, 0);
    ZoneParts(nodes, faces, ReaderColumns(lines), parse);
    ZoneFacesKeep(nodes, faces, ReaderColumns(lines), parse);
    StrictNodes(xs, ys, zs, toFloat);
    LineFaces(ReaderRule, lines, ValueLines);
  }

  /** Face k of an accepted tecplot/reader.py zone holds the k-th value of
      each of the eight field lines, when all of them reach that far. */
  lemma ReaderZoneFields(lines: seq<string>, toFloat: ToFloat, k: nat, d: nat)
    requires ReaderZone(lines, toFloat).Ok? && k < |ReaderZone(lines, toFloat).value.faces|
    requires |lines| >= ValueLines && d < 8
    requires forall e :: 3 <= e < ValueLines ==> k < |Values(lines[e])|
    ensures var f := ReaderZone(lines, toFloat).value.faces[k];
      var col := ReaderColumns(lines)[d];
      toFloat(Values(lines[d + 3])[k]).Some? && col.field in f.vals &&
      f.vals[col.field] == toFloat(Values(lines[d + 3])[k]).value
  {
    var cols := ReaderColumns(lines);
    var parse := Strict(toFloat);
    var nodes := NodesResult(ZipFrom(Values(lines[0]), Values(lines[1]), Values(lines[2]), parse, 0), false);
    var faces := FacesFrom(ReaderRule, Outcomes(ReaderRule, LinesFrom(lines, ValueLines)), 0);
    assert ReaderZone(lines, toFloat) == ZoneOf(nodes, faces, cols, parse);
    ZoneParts(nodes, faces, cols, parse);
    forall e | 0 <= e < |cols| ensures k < |cols[e].tokens| {
      assert cols[e].tokens == Values(lines[e + 3]);
    }
    ReaderColumnsDistinct(lines);
    ZoneFieldAt(nodes, faces, cols, parse, k, d);
    var f := ReaderZone(lines, toFloat).value.faces[k];
    var tok := cols[d].tokens[k];
    assert tok == Values(lines[d + 3])[k];
    assert HoldsValue(FieldsFrom(faces.value, cols, parse, 0).value[k - 0].vals, cols[d].field, parse.Apply(cols[d].tokens[k]));
    assert parse.Apply(tok) == StrictValue(toFloat, tok);
    assert HoldsValue(f.vals, cols[d].field, StrictValue(toFloat, tok));
  }

  /** What grid/tecplot.py accepts: node k takes x and y from lines 0 and
      1 but z from line 3; face k holds the ids of connectivity line k,
      unchecked. */
  lemma GridZoneShape(lines: seq<string>, toFloat: ToFloat)
    requires GridZone(lines, toFloat).Ok?
    ensures var z := GridZone(lines, toFloat).value;
      var xs, ys, zs := Values(lines[0]), Values(lines[1]), Values(lines[3]);
      |z.nodes| == Min3(|xs|, |ys|, |zs|) &&
      (forall k :: 0 <= k < |z.nodes| ==>
        z.nodes[k].id.None? && z.nodes[k].pos == Vec(toFloat(xs[k]).value, toFloat(ys[k]).value, toFloat(zs[k]).value)) &&
      |z.faces| == |LinesFrom(lines, ValueLines)| &&
      forall k :: 0 <= k < |z.faces| ==>
        z.faces[k].id.None? && z.faces[k].vals == map[] && ReadRow(GridRule, lines[ValueLines + k]).Ids? &&
        z.faces[k].nodesIds == ReadRow(GridRule, lines[ValueLines + k]).ids
  {
    var xs, ys, zs := Values(lines[0]), Values(lines[1]), Values(lines[3]);
    var parse := Strict(toFloat);
    var nodes := NodesResult(ZipFrom(xs, ys, zs, parse, 0), false);
    var rows := LinesFrom(lines, ValueLines);
    var outs := Outcomes(GridRule, rows);
    var faces := FacesFrom(GridRule, outs, 0);
    ZoneParts(nodes, faces, [], parse);
    ZoneFacesKeep(nodes, faces, [], parse);
    StrictNodes(xs, ys, zs, toFloat);
    LineFaces(GridRule, lines, ValueLines);
    GridFieldsUntouched(faces.value, parse, 0);
  }

  /** Without field columns the field loop changes no face. */
  lemma {:induction false} GridFieldsUntouched(faces: seq<FaceRec>, parse: Parse, i: nat)
    requires i <= |faces|
    ensures FieldsFrom(faces, [], parse, i) == Ok(faces[i..])
    decreases |faces| - i
  {
    if i < |faces| {
      GridFieldsUntouched(faces, parse, i + 1);
      assert PullRound([], parse, i, 0) == Ok(Some([]));
      assert faces[i].(vals := SetFields(faces[i].vals, [], [])) == faces[i];
      assert [faces[i]] + faces[i + 1..] == faces[i..];
    } else {
      assert faces[i..] == [];
    }
  }

  // ---------------------------------------------------------------------
  // The readers as the source runs them

  /** tecplot/io.py parce_nodes_and_faces. */
  method ReadIoZone(lines: seq<string>, numVars: nat, hi: int, toFloat: ToFloat) returns (r: Result<Zone>)
    ensures r == IoZone(lines, numVars, hi, toFloat)
  {
    if |lines| < 3 {
      return Fail(IndexError);
    }
    var cols := IoColumns(lines, hi);
    if cols.None? {
      return Fail(IndexError);
    }
    var parse := Lenient(toFloat);
    var nodes := CollectNodes(Split(lines[0], ' '), Split(lines[1], ' '), Split(lines[2], ' '), parse, true);
    r := Gather(nodes, IoRule, LinesFrom(lines, numVars), cols.value, parse);
  }

  /** tecplot/reader.py parce_nodes_and_faces. */
  method ReadReaderZone(lines: seq<string>, toFloat: ToFloat) returns (r: Result<Zone>)
    ensures r == ReaderZone(lines, toFloat)
  {
    if |lines| < ValueLines {
      return Fail(IndexError);
    }
    var parse := Strict(toFloat);
    var nodes := CollectNodes(Values(lines[0]), Values(lines[1]), Values(lines[2]), parse, false);
    r := Gather(nodes, ReaderRule, LinesFrom(lines, ValueLines), ReaderColumns(lines), parse);
  }

  /** grid/tecplot.py parce_nodes_and_faces. */
  method ReadGridZone(lines: seq<string>, toFloat: ToFloat) returns (r: Result<Zone>)
    ensures r == GridZone(lines, toFloat)
  {
    if |lines| < 4 {
      return Fail(IndexError);
    }
    var parse := Strict(toFloat);
    var nodes := CollectNodes(Values(lines[0]), Values(lines[1]), Values(lines[3]), parse, false);
    r := Gather(nodes, GridRule, LinesFrom(lines, ValueLines), [], parse);
  }

  /** The face loop and the field loop after the node loop. */
  method Gather(nodes: Result<seq<NodeRec>>, rule: RowRule, rows: seq<string>, cols: seq<Column>, parse: Parse)
    returns (r: Result<Zone>)
    ensures r == ZoneOf(nodes, FacesFrom(rule, Outcomes(rule, rows), 0), cols, parse)
  {
    if nodes.Fail? {
      return Fail(nodes.error);
    }
    var faces := CollectFaces(rule, rows);
    if faces.Fail? {
      return Fail(faces.error);
    }
    var filled := AssignFields(faces.value, cols, parse);
    if filled.Fail? {
      return Fail(filled.error);
    }
    return Ok(Zone(nodes.value, filled.value));
  }
}

/**
  Redaction paths: JSON Pointers as sections 3 and 4 of RFC 6901 define them
  (RedactedAuditCapture.validate_redaction_paths in config/models.py).
 */
module JsonPointer {
  import opened Wrappers

  const MAX_PATHS := 1000
  const MAX_PATH_LENGTH := 4096
  const ROOTS := {"params", "steps", "result", "error", "failures"}
  const STEP_FIELDS := {"globals", "input", "output", "message"}

  // ---------------------------------------------------------------- RFC 6901

  predicate IsEscape(s: string, i: nat)
    requires i < |s|
  {
    s[i] == '~' && i + 1 < |s| && s[i + 1] in {'0', '1'}
  }

  /** Section 3: every '~' begins the escape of a tilde or of a slash. */
  predicate WellEscaped(s: string) {
    forall i :: 0 <= i < |s| && s[i] == '~' ==> IsEscape(s, i)
  }

  predicate IsPointer(s: string) {
    (s == "" || s[0] == '/') && WellEscaped(s)
  }

  function Escape(token: string): string {
    if token == "" then ""
    else (if token[0] == '~' then "~0" else if token[0] == '/' then "~1" else [token[0]]) + Escape(token[1..])
  }

  /** Section 4, in one pass. */
  function Unescape(s: string): string {
    if s == "" then ""
    else if IsEscape(s, 0) then [if s[1] == '0' then '~' else '/'] + Unescape(s[2..])
    else [s[0]] + Unescape(s[1..])
  }

  /** The pointer that evaluates the given reference tokens one after the other. */
  function Pointer(tokens: seq<string>): string {
    if tokens == [] then "" else "/" + Escape(tokens[0]) + Pointer(tokens[1..])
  }

  // ---------------------------------------------------------------- what the source computes

  /** Python's s.replace("~" + escaped, plain). */
  function Replace(s: string, escaped: char, plain: char): string {
    if s == "" then ""
    else if |s| >= 2 && s[0] == '~' && s[1] == escaped then [plain] + Replace(s[2..], escaped, plain)
    else [s[0]] + Replace(s[1..], escaped, plain)
  }

  /** Python's s.split("/"). */
  function Split(s: string): (pieces: seq<string>)
    ensures pieces != []
  {
    if s == "" then [""]
    else if s[0] == '/' then [""] + Split(s[1..])
    else
      var rest := Split(s[1..]);
      [[s[0]] + rest[0]] + rest[1..]
  }

  function DecodedToken(piece: string): string {
    Replace(Replace(piece, '1', '/'), '0', '~')
  }

  function Decoded(pieces: seq<string>): seq<string> {
    seq(|pieces|, i requires 0 <= i < |pieces| => DecodedToken(pieces[i]))
  }

  function Tokens(path: string): seq<string>
    requires path != ""
  {
    Decoded(Split(path[1..]))
  }

  // ---------------------------------------------------------------- two passes equal one

  /**
    Replacing "~1" before "~0" decodes as one pass does, on every text: the first
    pass neither makes nor destroys an escape of a tilde.
   */
  lemma {:induction false} TwoPassesAreOne(piece: string)
    ensures DecodedToken(piece) == Unescape(piece)
    decreases |piece|
  {
    if piece != "" {
      var slashes := Replace(piece, '1', '/');
      if IsEscape(piece, 0) {
        TwoPassesAreOne(piece[2..]);
        if piece[1] == '0' {
          KeepsOther(piece[1..], '1', '/');
          assert slashes == "~0" + Replace(piece[2..], '1', '/') by {
            assert piece[1..][1..] == piece[2..];
          }
          assert slashes[2..] == Replace(piece[2..], '1', '/');
        } else {
          assert slashes[1..] == Replace(piece[2..], '1', '/');
        }
      } else {
        TwoPassesAreOne(piece[1..]);
        assert slashes[1..] == Replace(piece[1..], '1', '/');
        FirstAfterPass(piece[1..]);
      }
    }
  }

  lemma KeepsOther(s: string, escaped: char, plain: char)
    requires s != "" && s[0] != '~'
    ensures Replace(s, escaped, plain) == [s[0]] + Replace(s[1..], escaped, plain)
  {
  }

  lemma FirstAfterPass(s: string)
    ensures Replace(s, '1', '/') != "" && Replace(s, '1', '/')[0] == '0' <==> s != "" && s[0] == '0'
  {
  }

  // ---------------------------------------------------------------- splitting

  /** Python's "/".join(pieces). */
  function Join(pieces: seq<string>): string
    requires pieces != []
  {
    pieces[0] + if |pieces| == 1 then "" else "/" + Join(pieces[1..])
  }

  ghost predicate Slashless(pieces: seq<string>) {
    forall i :: 0 <= i < |pieces| ==> '/' !in pieces[i]
  }

  lemma {:induction false} JoinInvertsSplit(s: string)
    ensures Join(Split(s)) == s && Slashless(Split(s))
    decreases |s|
  {
    if s != "" {
      JoinInvertsSplit(s[1..]);
      assert s == [s[0]] + s[1..];
      var rest := Split(s[1..]);
      if s[0] == '/' {
        assert Split(s)[1..] == rest;
      } else {
        assert Split(s)[1..] == rest[1..];
      }
    }
  }

  lemma {:induction false} SplitAfterPiece(piece: string, rest: string)
    requires '/' !in piece && (rest == "" || rest[0] == '/')
    ensures Split(piece + rest) == [piece] + if rest == "" then [] else Split(rest[1..])
    decreases |piece|
  {
    if piece == "" {
      assert piece + rest == rest;
    } else {
      SplitAfterPiece(piece[1..], rest);
      assert (piece + rest)[1..] == piece[1..] + rest;
      assert piece == [piece[0]] + piece[1..];
    }
  }

  // ---------------------------------------------------------------- escaping

  lemma {:induction false} EscapeIsClean(token: string)
    ensures WellEscaped(Escape(token)) && '/' !in Escape(token) && Unescape(Escape(token)) == token
    decreases |token|
  {
    if token != "" {
      EscapeIsClean(token[1..]);
      var head := if token[0] == '~' then "~0" else if token[0] == '/' then "~1" else [token[0]];
      var rest := Escape(token[1..]);
      WellEscapedConcat(head, rest);
      assert (head + rest)[|head|..] == rest;
      assert token == [token[0]] + token[1..];
    }
  }

  /** Escapes do not span a boundary at which the left part is complete. */
  lemma WellEscapedConcat(a: string, b: string)
    ensures WellEscaped(a) && WellEscaped(b) ==> WellEscaped(a + b)
    ensures WellEscaped(a + b) && (b == "" || b[0] == '/') ==> WellEscaped(a)
    ensures WellEscaped(a + b) && (WellEscaped(a) || a == "") ==> WellEscaped(b)
  {
    if WellEscaped(a + b) {
      forall i | 0 <= i < |b| && b[i] == '~' ensures IsEscape(b, i) {
        assert IsEscape(a + b, |a| + i);
      }
      if b == "" || b[0] == '/' {
        forall i | 0 <= i < |a| && a[i] == '~' ensures IsEscape(a, i) {
          assert IsEscape(a + b, i);
        }
      }
    }
    if WellEscaped(a) && WellEscaped(b) {
      forall i | 0 <= i < |a + b| && (a + b)[i] == '~' ensures IsEscape(a + b, i) {
        if i < |a| {
          assert IsEscape(a, i);
        } else {
          assert IsEscape(b, i - |a|);
        }
      }
    }
  }

  lemma {:induction false} UnescapeThenEscape(s: string)
    requires WellEscaped(s) && '/' !in s
    ensures Escape(Unescape(s)) == s
    decreases |s|
  {
    if s != "" {
      if s[0] == '~' {
        assert IsEscape(s, 0);
        assert s == s[..2] + s[2..];
        WellEscapedConcat(s[..2], s[2..]);
        UnescapeThenEscape(s[2..]);
        assert Unescape(s)[1..] == Unescape(s[2..]);
      } else {
        assert s == [s[0]] + s[1..];
        WellEscapedConcat([s[0]], s[1..]);
        UnescapeThenEscape(s[1..]);
        assert Unescape(s)[1..] == Unescape(s[1..]);
      }
    }
  }

  // ---------------------------------------------------------------- whole pointers

  lemma DecodedFirst(piece: string, rest: seq<string>)
    ensures Decoded([piece] + rest) == [Unescape(piece)] + Decoded(rest)
  {
    TwoPassesAreOne(piece);
  }

  lemma {:induction false} PointerIsClean(tokens: seq<string>)
    ensures IsPointer(Pointer(tokens))
    decreases |tokens|
  {
    if tokens != [] {
      PointerIsClean(tokens[1..]);
      EscapeIsClean(tokens[0]);
      WellEscapedConcat("/" + Escape(tokens[0]), Pointer(tokens[1..]));
      WellEscapedConcat("/", Escape(tokens[0]));
    }
  }

  /** Decoding the pointer of a token path gives the token path back. */
  lemma {:induction false} DecodeInvertsEncode(tokens: seq<string>)
    requires tokens != []
    ensures Pointer(tokens) != "" && Tokens(Pointer(tokens)) == tokens
    decreases |tokens|
  {
    var piece, rest := Escape(tokens[0]), Pointer(tokens[1..]);
    var others: seq<string> := if rest == "" then [] else Split(rest[1..]);
    EscapeIsClean(tokens[0]);
    PointerIsClean(tokens[1..]);
    SplitAfterPiece(piece, rest);
    AfterFirstSlash(tokens);
    DecodedFirst(piece, others);
    assert tokens == [tokens[0]] + tokens[1..];
    if |tokens| > 1 {
      DecodeInvertsEncode(tokens[1..]);
      assert Decoded(others) == tokens[1..];
    } else {
      assert rest == "" && Decoded(others) == [];
    }
  }

  lemma AfterFirstSlash(tokens: seq<string>)
    requires tokens != []
    ensures Pointer(tokens) != "" && Pointer(tokens)[1..] == Escape(tokens[0]) + Pointer(tokens[1..])
  {
  }

  lemma {:induction false} EncodeOfPieces(pieces: seq<string>)
    requires pieces != [] && Slashless(pieces) && WellEscaped(Join(pieces))
    ensures Pointer(Decoded(pieces)) == "/" + Join(pieces)
    decreases |pieces|
  {
    var first, others := pieces[0], pieces[1..];
    assert pieces == [first] + others;
    DecodedFirst(first, others);
    assert Decoded(pieces)[1..] == Decoded(others);
    if others == [] {
      assert Join(pieces) == first;
      UnescapeThenEscape(first);
      assert Pointer(Decoded(others)) == "";
    } else {
      WellEscapedConcat(first, "/" + Join(others));
      WellEscapedConcat("/", Join(others));
      UnescapeThenEscape(first);
      EncodeOfPieces(others);
    }
  }

  /** Encoding the decoded tokens gives the path back exactly when the path is a JSON Pointer. */
  lemma EncodeInvertsDecodeIffPointer(path: string)
    requires path != ""
    ensures Pointer(Tokens(path)) == path <==> IsPointer(path)
  {
    PointerIsClean(Tokens(path));
    if IsPointer(path) {
      assert path == "/" + path[1..];
      WellEscapedConcat("/", path[1..]);
      JoinInvertsSplit(path[1..]);
      EncodeOfPieces(Split(path[1..]));
    }
  }

  /** So two accepted paths are the same text exactly when they name the same place. */
  lemma DecodingIsInjective(path1: string, path2: string)
    requires path1 != "" && path2 != "" && IsPointer(path1) && IsPointer(path2)
    ensures Tokens(path1) == Tokens(path2) <==> path1 == path2
  {
    EncodeInvertsDecodeIffPointer(path1);
    EncodeInvertsDecodeIffPointer(path2);
  }

  // ---------------------------------------------------------------- the validator

  datatype PathError =
    | OutOfBounds
    | NotAPointer
    | InvalidEscape
    | NotAPayloadField
    | NotAStepField
    | NotAnErrorMessage
    | NotAFailureMessage
    | Duplicated

  /** The places of an audit payload that may be redacted. */
  predicate Targets(tokens: seq<string>) {
    && tokens != []
    && tokens[0] in ROOTS
    && (tokens[0] == "steps" ==> |tokens| >= 3 && tokens[2] in STEP_FIELDS)
    && (tokens[0] == "error" ==> |tokens| >= 2 && tokens[1] == "message")
    && (tokens[0] == "failures" ==> |tokens| >= 3 && tokens[2] == "message")
  }

  ghost predicate Redactable(path: string) {
    exists tokens :: Targets(tokens) && path == Pointer(tokens)
  }

  /** The index loop over the characters of a path. */
  method HasValidEscapes(path: string) returns (valid: bool)
    ensures valid <==> WellEscaped(path)
  {
    var index := 0;
    while index < |path|
      invariant index <= |path|
      invariant forall i :: 0 <= i < index && path[i] == '~' ==> IsEscape(path, i)
    {
      if path[index] != '~' {
        index := index + 1;
      } else if index + 1 >= |path| || path[index + 1] !in {'0', '1'} {
        assert !IsEscape(path, index);
        return false;
      } else {
        index := index + 2;
      }
    }
    valid := true;
  }

  lemma RedactableIffTokensTarget(path: string)
    requires path != ""
    ensures Redactable(path) <==> IsPointer(path) && Targets(Tokens(path))
  {
    if IsPointer(path) && Targets(Tokens(path)) {
      EncodeInvertsDecodeIffPointer(path);
    }
    if tokens :| Targets(tokens) && path == Pointer(tokens) {
      DecodeInvertsEncode(tokens);
      PointerIsClean(tokens);
    }
  }

  /** Accepts exactly the pointers to a place that may be redacted. */
  method CheckPath(path: string) returns (error: Option<PathError>)
    requires path != ""
    ensures error.None? <==> Redactable(path)
  {
    RedactableIffTokensTarget(path);
    if path[0] != '/' {
      return Some(NotAPointer);
    }
    var valid := HasValidEscapes(path);
    if !valid {
      return Some(InvalidEscape);
    }
    var tokens := Tokens(path);
    if tokens[0] !in ROOTS {
      return Some(NotAPayloadField);
    }
    if tokens[0] == "steps" && (|tokens| < 3 || tokens[2] !in STEP_FIELDS) {
      return Some(NotAStepField);
    }
    if tokens[0] == "error" && (|tokens| < 2 || tokens[1] != "message") {
      return Some(NotAnErrorMessage);
    }
    if tokens[0] == "failures" && (|tokens| < 3 || tokens[2] != "message") {
      return Some(NotAFailureMessage);
    }
    error := None;
  }

  predicate Distinct(paths: seq<string>) {
    forall i, j :: 0 <= i < j < |paths| ==> paths[i] != paths[j]
  }

  lemma {:induction false} DistinctIffAsManyElements(paths: seq<string>)
    ensures |(set p | p in paths)| <= |paths|
    ensures |(set p | p in paths)| == |paths| <==> Distinct(paths)
    decreases |paths|
  {
    if paths != [] {
      var front, last := paths[..|paths| - 1], paths[|paths| - 1];
      DistinctIffAsManyElements(front);
      var before, all := set p | p in front, set p | p in paths;
      assert all == before + {last};
      if last in front {
        assert all == before;
        var i :| 0 <= i < |front| && front[i] == last;
        assert paths[i] == paths[|paths| - 1];
      }
    }
  }

  predicate WithinBounds(paths: seq<string>) {
    1 <= |paths| <= MAX_PATHS && forall i :: 0 <= i < |paths| ==> 1 <= |paths[i]| <= MAX_PATH_LENGTH
  }

  ghost predicate AllRedactable(paths: seq<string>) {
    forall i :: 0 <= i < |paths| ==> Redactable(paths[i])
  }

  /** Accepts exactly the bounded lists, without repetition, of pointers to redactable places. */
  method ValidateRedactionPaths(paths: seq<string>) returns (error: Option<PathError>)
    ensures error.None? <==> WithinBounds(paths) && AllRedactable(paths) && Distinct(paths)
  {
    if !WithinBounds(paths) {
      return Some(OutOfBounds);
    }
    for i := 0 to |paths|
      invariant forall k :: 0 <= k < i ==> Redactable(paths[k])
    {
      error := CheckPath(paths[i]);
      if error.Some? {
        return;
      }
    }
    DistinctIffAsManyElements(paths);
    error := if |paths| != |(set p | p in paths)| then Some(Duplicated) else None;
  }

  /** An accepted list names each place of the payload at most once, however the place is escaped. */
  lemma AcceptedPathsNameDistinctPlaces(paths: seq<string>, i: nat, j: nat)
    requires WithinBounds(paths) && AllRedactable(paths) && Distinct(paths) && i < j < |paths|
    ensures Tokens(paths[i]) != Tokens(paths[j])
  {
    RedactableIffTokensTarget(paths[i]);
    RedactableIffTokensTarget(paths[j]);
    DecodingIsInjective(paths[i], paths[j]);
  }
}

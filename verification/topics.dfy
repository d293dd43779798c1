/** Topic tokenizer and filter matcher of `SubscriptionsStore` (`parseTopic`,
    `validate`, `matchTopics`): the topic-name and topic-filter rules of section 4.7 of
    MQTT 3.1.1, on top of the platform's `String.split("/")`. */
module Topics {
  import opened Results

  /** One level of a topic: the empty level, `#`, `+`, or a literal name. */
  datatype Token = Empty | Multi | Single | Lit(name: string)

  /** Why `parseTopic` throws, with the index of the offending level. */
  datatype ParseError =
    | MultiNotLast(index: nat)     // `#` not in the last position
    | InvalidSegment(index: nat)   // `#` or `+` inside a longer level

  // ---------------------------------------------------------------------------
  // Splitting on '/'

  /** Index of the first '/' in `s`, or `|s|` when there is none. */
  function SlashIndex(s: string): (i: nat)
    ensures i <= |s|
    ensures i < |s| ==> s[i] == '/'
    ensures '/' !in s[..i]
    ensures i == |s| <==> '/' !in s
  {
    if |s| == 0 then 0
    else if s[0] == '/' then 0
    else
      var j := SlashIndex(s[1..]);
      assert s[..1 + j] == [s[0]] + s[1..][..j];
      assert s == [s[0]] + s[1..];
      1 + j
  }

  /** Every piece between separators, empty ones included: "a//b" gives ["a", "", "b"]. */
  function Pieces(s: string): (ps: seq<string>)
    ensures |ps| >= 1
    ensures '/' in s ==> |ps| >= 2
    ensures forall k :: 0 <= k < |ps| ==> '/' !in ps[k]
    decreases |s|
  {
    var i := SlashIndex(s);
    if i == |s| then [s] else [s[..i]] + Pieces(s[i + 1..])
  }

  /** The inverse of `Pieces`: the pieces with '/' between consecutive ones. */
  function Join(ps: seq<string>): string
    requires |ps| >= 1
  {
    if |ps| == 1 then ps[0] else ps[0] + "/" + Join(ps[1..])
  }

  /** Splitting and joining again gives the original string. */
  lemma {:induction false} JoinPieces(s: string)
    ensures Join(Pieces(s)) == s
    decreases |s|
  {
    var i := SlashIndex(s);
    if i < |s| {
      JoinPieces(s[i + 1..]);
      assert s == s[..i] + "/" + s[i + 1..];
    } else {
      assert s[..i] == s;
    }
  }

  /** A '/'-free piece followed by a separator splits off as that piece. */
  lemma PiecesCons(w: string, rest: string)
    requires '/' !in w
    ensures Pieces(w + "/" + rest) == [w] + Pieces(rest)
  {
    var s := w + "/" + rest;
    var i := SlashIndex(s);
    assert s[|w|] == '/';
    assert s[..|w|] == w;
    assert s[|w| + 1..] == rest;
  }

  /** Joining '/'-free pieces and splitting again gives the same pieces. */
  lemma {:induction false} PiecesJoin(ps: seq<string>)
    requires |ps| >= 1
    requires forall k :: 0 <= k < |ps| ==> '/' !in ps[k]
    ensures Pieces(Join(ps)) == ps
    decreases |ps|
  {
    if |ps| == 1 {
      PiecesSingle(ps[0]);
    } else {
      var tail := ps[1..];
      assert forall k :: 0 <= k < |tail| ==> '/' !in tail[k] by {
        forall k | 0 <= k < |tail| ensures '/' !in tail[k] {
          assert tail[k] == ps[k + 1];
        }
      }
      PiecesJoin(tail);
      PiecesConsJoin(ps);
    }
  }

  lemma PiecesSingle(w: string)
    requires '/' !in w
    ensures Pieces(w) == [w]
  {
  }

  lemma PiecesConsJoin(ps: seq<string>)
    requires |ps| >= 2 && '/' !in ps[0]
    requires Pieces(Join(ps[1..])) == ps[1..]
    ensures Pieces(Join(ps)) == ps
  {
    PiecesCons(ps[0], Join(ps[1..]));
    assert [ps[0]] + ps[1..] == ps;
  }

  /** Drops empty strings from the end, as `String.split` does. */
  function DropTrailingEmpty(ps: seq<string>): (r: seq<string>)
    ensures |r| <= |ps| && r == ps[..|r|]
    ensures |r| > 0 ==> r[|r| - 1] != ""
    ensures forall k :: |r| <= k < |ps| ==> ps[k] == ""
  {
    if |ps| == 0 then []
    else if ps[|ps| - 1] == "" then DropTrailingEmpty(ps[..|ps| - 1])
    else ps
  }

  lemma DropLastEmpty(ps: seq<string>)
    requires |ps| > 0 && ps[|ps| - 1] == ""
    ensures DropTrailingEmpty(ps) == DropTrailingEmpty(ps[..|ps| - 1])
  {
  }

  lemma DropNone(ps: seq<string>)
    requires |ps| > 0 && ps[|ps| - 1] != ""
    ensures DropTrailingEmpty(ps) == ps
  {
  }

  /** The platform's `topic.split("/")`: a string without '/' comes back as itself
      (so "" gives [""]); otherwise the pieces with trailing empty ones dropped (so
      "a//" gives ["a"] and "/" gives []). */
  function JavaSplit(s: string): (r: seq<string>)
    ensures forall k :: 0 <= k < |r| ==> '/' !in r[k]
    ensures '/' !in s ==> r == [s]
    ensures '/' in s ==> |r| == 0 || r[|r| - 1] != ""
    ensures |r| <= |Pieces(s)|
    ensures '/' in s ==> Join(r + seq(|Pieces(s)| - |r|, _ => "")) == s
  {
    if '/' !in s then [s]
    else
      RestoreDropped(Pieces(s));
      JoinPieces(s);
      DropTrailingEmpty(Pieces(s))
  }

  /** Putting back as many empty pieces as were dropped gives the pieces again. */
  lemma RestoreDropped(ps: seq<string>)
    ensures var r := DropTrailingEmpty(ps);
            r + seq(|ps| - |r|, _ => "") == ps
  {
    var r := DropTrailingEmpty(ps);
    var back := r + seq(|ps| - |r|, _ => "");
    assert |back| == |ps|;
    forall k | 0 <= k < |ps| ensures back[k] == ps[k] {
      if k < |r| {
        assert back[k] == r[k] == ps[k];
      }
    }
  }

  predicate EndsWithSlash(s: string)
  {
    |s| > 0 && s[|s| - 1] == '/'
  }

  /** The levels `parseTopic` classifies: the split, plus one "" when the topic ends in '/'. */
  function Levels(topic: string): (r: seq<string>)
    ensures forall k :: 0 <= k < |r| ==> '/' !in r[k]
  {
    var splitted := JavaSplit(topic);
    if EndsWithSlash(topic) then splitted + [""] else splitted
  }

  // ---------------------------------------------------------------------------
  // Classification

  /** Classifies level `i` of `n`. */
  function Classify(s: string, i: nat, n: nat): Result<Token, ParseError>
  {
    if s == "" then Ok(Empty)
    else if s == "#" then (if i != n - 1 then Err(MultiNotLast(i)) else Ok(Multi))
    else if '#' in s then Err(InvalidSegment(i))
    else if s == "+" then Ok(Single)
    else if '+' in s then Err(InvalidSegment(i))
    else Ok(Lit(s))
  }

  /** Classifies levels `from..` in order; the first error wins. */
  function ClassifyFrom(levels: seq<string>, from: nat): (r: Result<seq<Token>, ParseError>)
    requires from <= |levels|
    ensures r.Ok? ==> |r.value| == |levels| - from
    decreases |levels| - from
  {
    if from == |levels| then Ok([])
    else
      var t :- Classify(levels[from], from, |levels|);
      var rest :- ClassifyFrom(levels, from + 1);
      Ok([t] + rest)
  }

  /** Each token of a successful classification is its level's classification. */
  lemma {:induction false} ClassifyFromAt(levels: seq<string>, from: nat, k: nat)
    requires from <= k < |levels|
    requires ClassifyFrom(levels, from).Ok?
    ensures Classify(levels[k], k, |levels|) == Ok(ClassifyFrom(levels, from).value[k - from])
    decreases k - from
  {
    if k > from {
      ClassifyFromAt(levels, from + 1, k);
    }
  }

  /** `parseTopic`. When the split is empty (a topic made only of '/'), one `Empty`
      comes first; then one token per level. */
  function ParseTopic(topic: string): (r: Result<seq<Token>, ParseError>)
    ensures r.Ok? <==> LevelsOk(Levels(topic))
    ensures r.Ok? ==> |r.value| >= 1
  {
    ClassifyFromOk(Levels(topic), 0);
    LevelsShape(topic);
    var tokens :- ClassifyFrom(Levels(topic), 0);
    if |JavaSplit(topic)| == 0 then Ok([Empty] + tokens) else Ok(tokens)
  }

  /** `validate`: true iff `parseTopic` does not throw, that is, exactly when every
      level of the filter is acceptable at its position. */
  function Validate(topicFilter: string): (r: bool)
    ensures r <==> LevelsOk(Levels(topicFilter))
  {
    ParseTopic(topicFilter).Ok?
  }

  // ---------------------------------------------------------------------------
  // What parsing accepts and produces

  /** A level `parseTopic` accepts at position `i` of `n`: `#` only last, and neither
      wildcard character inside a longer level. */
  predicate LevelOk(s: string, i: nat, n: nat)
  {
    && (s == "#" ==> i == n - 1)
    && ('#' in s ==> s == "#")
    && ('+' in s ==> s == "+")
  }

  predicate LevelsOk(levels: seq<string>)
  {
    forall i :: 0 <= i < |levels| ==> LevelOk(levels[i], i, |levels|)
  }

  /** A literal level: non-empty, and no separator or wildcard character. */
  predicate LiteralName(s: string)
  {
    s != "" && '/' !in s && '#' !in s && '+' !in s
  }

  /** The token lists `parseTopic` can return: never empty, literals are literal,
      `#` only last, and never two trailing `Empty` after a third token (the split
      drops the trailing empty levels and only one is put back). */
  predicate Canonical(ts: seq<Token>)
  {
    && |ts| >= 1
    && (forall i :: 0 <= i < |ts| && ts[i].Lit? ==> LiteralName(ts[i].name))
    && (forall i :: 0 <= i < |ts| - 1 ==> ts[i] != Multi)
    && !(|ts| >= 3 && ts[|ts| - 1] == Empty && ts[|ts| - 2] == Empty)
  }

  lemma {:induction false} ClassifyFromOk(levels: seq<string>, from: nat)
    requires from <= |levels|
    ensures ClassifyFrom(levels, from).Ok? <==>
            forall i :: from <= i < |levels| ==> LevelOk(levels[i], i, |levels|)
    decreases |levels| - from
  {
    if from < |levels| {
      ClassifyFromOk(levels, from + 1);
    }
  }

  /** `#` in a position other than the last level, or inside a longer level, throws. */
  lemma MultiMisplacedRejected(f: string, i: nat)
    requires i < |Levels(f)|
    requires (Levels(f)[i] == "#" && i != |Levels(f)| - 1) || ('#' in Levels(f)[i] && Levels(f)[i] != "#")
    ensures !Validate(f)
  {
  }

  /** `+` inside a longer level throws. */
  lemma SingleEmbeddedRejected(f: string, i: nat)
    requires i < |Levels(f)|
    requires '+' in Levels(f)[i] && Levels(f)[i] != "+"
    ensures !Validate(f)
  {
  }

  lemma {:induction false} LastPiece(ps: seq<string>)
    requires |ps| >= 2 && ps[|ps| - 1] == ""
    ensures EndsWithSlash(Join(ps))
    decreases |ps|
  {
    if |ps| > 2 {
      LastPiece(ps[1..]);
    }
  }

  /** A topic with a '/' whose split is empty is made only of '/', so ends with one. */
  lemma EmptySplitEndsWithSlash(topic: string)
    requires '/' in topic && |JavaSplit(topic)| == 0
    ensures EndsWithSlash(topic)
  {
    var ps := Pieces(topic);
    JoinPieces(topic);
    LastPiece(ps);
  }

  /** The shape of the levels: a topic made only of '/' has the single level "",
      a topic ending in '/' has a last level "" and (when there are more) a
      non-empty one before it. */
  lemma LevelsShape(topic: string)
    ensures |JavaSplit(topic)| == 0 ==> Levels(topic) == [""]
    ensures EndsWithSlash(topic) ==> |Levels(topic)| >= 1 && Levels(topic)[|Levels(topic)| - 1] == ""
    ensures !EndsWithSlash(topic) ==> Levels(topic) == JavaSplit(topic)
    ensures |Levels(topic)| >= 2 && Levels(topic)[|Levels(topic)| - 1] == "" ==>
              Levels(topic)[|Levels(topic)| - 2] != ""
    ensures |Levels(topic)| >= 1
  {
    var r := JavaSplit(topic);
    if '/' !in topic {
      assert r == [topic];
      if |topic| > 0 {
        assert topic[|topic| - 1] in topic;
      }
    } else {
      assert r == DropTrailingEmpty(Pieces(topic));
      if |r| == 0 {
        EmptySplitEndsWithSlash(topic);
      } else {
        assert r[|r| - 1] != "";
      }
    }
  }

  /** Every result of `parseTopic` is canonical. In particular it is never empty,
      and a topic ending in '/' yields exactly one final `Empty`. */
  lemma ParseTopicCanonical(topic: string)
    requires ParseTopic(topic).Ok?
    ensures Canonical(ParseTopic(topic).value)
    ensures EndsWithSlash(topic) ==> ParseTopic(topic).value[|ParseTopic(topic).value| - 1] == Empty
    ensures |JavaSplit(topic)| > 0 ==> |ParseTopic(topic).value| == |Levels(topic)|
  {
    LevelsShape(topic);
    var levels := Levels(topic);
    var body := ClassifyFrom(levels, 0).value;
    ClassifiedCanonical(levels, body);
    if |JavaSplit(topic)| == 0 {
      assert ParseTopic(topic).value == [Empty] + body;
      ClassifyFromAt(levels, 0, 0);
    } else {
      assert ParseTopic(topic).value == body;
    }
  }

  /** The classified levels form a canonical list whenever the last two levels are
      not both empty. */
  lemma ClassifiedCanonical(levels: seq<string>, body: seq<Token>)
    requires |levels| >= 1
    requires forall k :: 0 <= k < |levels| ==> '/' !in levels[k]
    requires ClassifyFrom(levels, 0) == Ok(body)
    requires |levels| >= 2 && levels[|levels| - 1] == "" ==> levels[|levels| - 2] != ""
    ensures Canonical(body)
    ensures levels[|levels| - 1] == "" ==> body[|body| - 1] == Empty
  {
    var n := |levels|;
    assert |body| == n;
    forall i | 0 <= i < n
      ensures body[i].Lit? ==> LiteralName(body[i].name)
      ensures i < n - 1 ==> body[i] != Multi
      ensures body[i] == Empty <==> levels[i] == ""
    {
      ClassifiedAt(levels, body, i);
    }
    PointwiseCanonical(levels, body);
  }

  /** Token `i` of a successful classification, as `ClassifyResult` describes it. */
  lemma ClassifiedAt(levels: seq<string>, body: seq<Token>, i: nat)
    requires i < |levels| && '/' !in levels[i]
    requires ClassifyFrom(levels, 0) == Ok(body)
    ensures i < |body|
    ensures body[i].Lit? ==> LiteralName(body[i].name)
    ensures i < |levels| - 1 ==> body[i] != Multi
    ensures body[i] == Empty <==> levels[i] == ""
  {
    ClassifyFromAt(levels, 0, i);
    var s, t := levels[i], body[i];
    assert Classify(s, i, |levels|) == Ok(t);
    ClassifyResult(s, i, |levels|, t);
  }

  /** Token lists that agree level by level with the rules of `Canonical` are canonical. */
  lemma PointwiseCanonical(levels: seq<string>, body: seq<Token>)
    requires |levels| >= 1 && |body| == |levels|
    requires |levels| >= 2 && levels[|levels| - 1] == "" ==> levels[|levels| - 2] != ""
    requires forall i :: 0 <= i < |body| ==> (body[i].Lit? ==> LiteralName(body[i].name))
    requires forall i :: 0 <= i < |body| - 1 ==> body[i] != Multi
    requires forall i :: 0 <= i < |body| ==> (body[i] == Empty <==> levels[i] == "")
    ensures Canonical(body)
    ensures levels[|levels| - 1] == "" ==> body[|body| - 1] == Empty
  {
    var n := |body|;
    if n >= 3 && body[n - 1] == Empty {
      assert levels[n - 1] == "";
      assert levels[n - 2] != "";
    }
  }

  /** What a successful classification says about the level. */
  lemma ClassifyResult(s: string, i: nat, n: nat, t: Token)
    requires '/' !in s
    requires Classify(s, i, n) == Ok(t)
    ensures t.Lit? ==> LiteralName(t.name) && t.name == s
    ensures t == Multi ==> i == n - 1
    ensures t == Empty <==> s == ""
  {
  }

  // ---------------------------------------------------------------------------
  // Writing tokens back as a topic

  function TokenText(t: Token): string
  {
    match t
    case Empty => ""
    case Multi => "#"
    case Single => "+"
    case Lit(s) => s
  }

  function Texts(ts: seq<Token>): (r: seq<string>)
    ensures |r| == |ts|
    ensures forall k :: 0 <= k < |ts| ==> r[k] == TokenText(ts[k])
  {
    if |ts| == 0 then [] else [TokenText(ts[0])] + Texts(ts[1..])
  }

  /** The topic string a token list stands for. */
  function Unparse(ts: seq<Token>): string
    requires |ts| >= 1
  {
    Join(Texts(ts))
  }

  lemma ClassifyText(t: Token, i: nat, n: nat)
    requires t.Lit? ==> LiteralName(t.name)
    requires t == Multi ==> i == n - 1
    ensures Classify(TokenText(t), i, n) == Ok(t)
  {
  }

  lemma {:induction false} ClassifyTexts(ts: seq<Token>, levels: seq<string>, from: nat)
    requires from <= |levels| == |ts|
    requires forall k :: from <= k < |ts| ==> levels[k] == TokenText(ts[k])
    requires forall k :: from <= k < |ts| && ts[k].Lit? ==> LiteralName(ts[k].name)
    requires forall k :: from <= k < |ts| - 1 ==> ts[k] != Multi
    ensures ClassifyFrom(levels, from) == Ok(ts[from..])
    decreases |levels| - from
  {
    if from < |levels| {
      ClassifyText(ts[from], from, |levels|);
      ClassifyTexts(ts, levels, from + 1);
      assert [ts[from]] + ts[from + 1..] == ts[from..];
    } else {
      assert ts[from..] == [];
    }
  }

  /** Parsing the topic a canonical token list stands for gives back that list. */
  lemma UnparseThenParse(ts: seq<Token>)
    requires Canonical(ts)
    ensures ParseTopic(Unparse(ts)) == Ok(ts)
  {
    TextsSlashFree(ts);
    if |ts| == 1 {
      UnparseThenParseOne(ts);
    } else if ts == [Empty, Empty] {
      OnlySlash();
    } else {
      UnparseThenParseMany(ts);
    }
  }

  lemma TextsSlashFree(ts: seq<Token>)
    requires Canonical(ts)
    ensures forall k :: 0 <= k < |ts| ==> '/' !in Texts(ts)[k]
  {
    forall k | 0 <= k < |ts| ensures '/' !in Texts(ts)[k] {
      assert Texts(ts)[k] == TokenText(ts[k]);
      TokenTextSlashFree(ts[k]);
    }
  }

  lemma TokenTextSlashFree(t: Token)
    requires t.Lit? ==> '/' !in t.name
    ensures '/' !in TokenText(t)
  {
    match t
    case Empty => assert TokenText(t) == [];
    case Multi => assert TokenText(t) == ['#'];
    case Single => assert TokenText(t) == ['+'];
    case Lit(_) =>
  }

  lemma UnparseThenParseOne(ts: seq<Token>)
    requires Canonical(ts) && |ts| == 1
    requires '/' !in Texts(ts)[0]
    ensures ParseTopic(Unparse(ts)) == Ok(ts)
  {
    var t := Unparse(ts);
    assert t == Texts(ts)[0];
    assert JavaSplit(t) == [t];
    ClassifyTexts(ts, [t], 0);
    assert ts[0..] == ts;
    if ts[0] != Empty {
      NotEndsWithSlash([t]);
    }
  }

  lemma UnparseThenParseMany(ts: seq<Token>)
    requires Canonical(ts) && |ts| >= 2 && ts != [Empty, Empty]
    requires forall k :: 0 <= k < |ts| ==> '/' !in Texts(ts)[k]
    ensures ParseTopic(Unparse(ts)) == Ok(ts)
  {
    var texts := Texts(ts);
    LastTwoTexts(ts);
    LevelsOfJoin(texts);
    ClassifyCanonicalTexts(ts);
    ParseNonEmptySplit(Unparse(ts), ts);
  }

  /** A canonical list of two or more tokens, other than two `Empty`, does not end
      in two empty texts. */
  lemma LastTwoTexts(ts: seq<Token>)
    requires Canonical(ts) && |ts| >= 2 && ts != [Empty, Empty]
    ensures Texts(ts)[|ts| - 1] == "" ==> Texts(ts)[|ts| - 2] != ""
  {
    var n := |ts|;
    var a, b := ts[n - 2], ts[n - 1];
    assert b.Lit? ==> LiteralName(b.name);
    assert a.Lit? ==> LiteralName(a.name);
    EmptyText(a);
    EmptyText(b);
    if b == Empty && n == 2 {
      assert ts == [a, b];
    }
  }

  /** Only `Empty` has the empty text. */
  lemma EmptyText(t: Token)
    requires t.Lit? ==> t.name != ""
    ensures TokenText(t) == "" <==> t == Empty
  {
  }

  /** The texts of a canonical list classify back to the list. */
  lemma ClassifyCanonicalTexts(ts: seq<Token>)
    requires Canonical(ts)
    ensures ClassifyFrom(Texts(ts), 0) == Ok(ts)
  {
    ClassifyTexts(ts, Texts(ts), 0);
    assert ts[0..] == ts;
  }

  /** When the split is not empty, the tokens are the classified levels. */
  lemma ParseNonEmptySplit(t: string, ts: seq<Token>)
    requires |JavaSplit(t)| > 0
    requires ClassifyFrom(Levels(t), 0) == Ok(ts)
    ensures ParseTopic(t) == Ok(ts)
  {
  }

  /** `parseTopic("/")` is two `Empty` tokens: the split is empty, so one `Empty`
      leads, and the trailing '/' adds the other. */
  lemma OnlySlash()
    ensures Unparse([Empty, Empty]) == "/"
    ensures ParseTopic("/") == Ok([Empty, Empty])
  {
    var t := "/";
    assert Texts([Empty, Empty]) == ["", ""];
    assert t[0] in t;
    assert SlashIndex(t) == 0;
    assert t[1..] == "";
    assert Pieces(t) == ["", ""];
    assert DropTrailingEmpty([""]) == [];
    assert DropTrailingEmpty(["", ""]) == [];
    assert Levels(t) == [""];
    var none: seq<Token> := [];
    assert [Empty] + none == [Empty];
    assert ClassifyFrom([""], 1) == Ok([]);
    assert ClassifyFrom([""], 0) == Ok([Empty]);
    assert [Empty] + [Empty] == [Empty, Empty];
  }

  /** Two or more pieces join into a topic with a separator. */
  lemma SlashInJoin(texts: seq<string>)
    requires |texts| >= 2
    ensures '/' in Join(texts)
  {
    var t := Join(texts);
    assert t == texts[0] + "/" + Join(texts[1..]);
    assert t[|texts[0]|] == '/';
  }

  /** Joining two or more '/'-free pieces that do not end in two empty ones and
      taking the levels gives the pieces back. */
  lemma LevelsOfJoin(texts: seq<string>)
    requires |texts| >= 2
    requires forall k :: 0 <= k < |texts| ==> '/' !in texts[k]
    requires texts[|texts| - 1] == "" ==> texts[|texts| - 2] != ""
    ensures |JavaSplit(Join(texts))| > 0
    ensures Levels(Join(texts)) == texts
  {
    SlashInJoin(texts);
    PiecesJoin(texts);
    if texts[|texts| - 1] != "" {
      LevelsOfJoinLastNonEmpty(texts);
    } else {
      LevelsOfJoinLastEmpty(texts);
    }
  }

  lemma LevelsOfJoinLastNonEmpty(texts: seq<string>)
    requires |texts| >= 2 && texts[|texts| - 1] != ""
    requires forall k :: 0 <= k < |texts| ==> '/' !in texts[k]
    requires '/' in Join(texts) && Pieces(Join(texts)) == texts
    ensures JavaSplit(Join(texts)) == texts
    ensures Levels(Join(texts)) == texts
  {
    NotEndsWithSlash(texts);
    DropNone(texts);
  }

  lemma LevelsOfJoinLastEmpty(texts: seq<string>)
    requires |texts| >= 2 && texts[|texts| - 1] == "" && texts[|texts| - 2] != ""
    requires '/' in Join(texts) && Pieces(Join(texts)) == texts
    ensures JavaSplit(Join(texts)) == texts[..|texts| - 1]
    ensures Levels(Join(texts)) == texts
  {
    var n := |texts|;
    var t := Join(texts);
    SplitDropsLastEmpty(texts, t);
    LastPiece(texts);
    LevelsWithSlash(t);
    assert texts[..n - 1] + [""] == texts;
  }

  lemma LevelsWithSlash(t: string)
    requires EndsWithSlash(t)
    ensures Levels(t) == JavaSplit(t) + [""]
  {
  }

  lemma SplitDropsLastEmpty(texts: seq<string>, t: string)
    requires |texts| >= 2 && texts[|texts| - 1] == "" && texts[|texts| - 2] != ""
    requires '/' in t && Pieces(t) == texts
    ensures JavaSplit(t) == texts[..|texts| - 1]
  {
    var n := |texts|;
    assert JavaSplit(t) == DropTrailingEmpty(texts);
    DropLastEmpty(texts);
    assert texts[..n - 1][n - 2] == texts[n - 2];
    DropNone(texts[..n - 1]);
  }

  lemma {:induction false} NotEndsWithSlash(ps: seq<string>)
    requires |ps| >= 1 && ps[|ps| - 1] != ""
    requires forall k :: 0 <= k < |ps| ==> '/' !in ps[k]
    ensures !EndsWithSlash(Join(ps))
    decreases |ps|
  {
    if |ps| == 1 {
      assert ps[0][|ps[0]| - 1] in ps[0];
    } else {
      NotEndsWithSlash(ps[1..]);
    }
  }

  /** `"a//".split("/")` is `["a"]`, so the levels of "a//" are "a" and "". */
  lemma LevelsOfTrailingSlashes()
    ensures JavaSplit("a//") == ["a"]
    ensures Levels("a//") == ["a", ""]
  {
    var ps := ["a", "", ""];
    assert Join(ps[2..]) == "";
    assert Join(ps[1..]) == "/";
    assert Join(ps) == "a//";
    assert '/' !in ps[0];
    PiecesJoin(ps);
    assert "a//"[1] == '/';
    DropLastEmpty(ps);
    assert ps[..2] == ["a", ""];
    DropLastEmpty(["a", ""]);
    assert ["a", ""][..1] == ["a"];
    DropNone(["a"]);
  }

  /** `parseTopic("a//")` is `[a, Empty]`: the trailing empty levels collapse to one. */
  lemma TrailingSlashesCollapse()
    ensures ParseTopic("a//") == Ok([Lit("a"), Empty])
  {
    LevelsOfTrailingSlashes();
    var none: seq<Token> := [];
    assert [Empty] + none == [Empty];
    assert ClassifyFrom(["a", ""], 2) == Ok([]);
    assert ClassifyFrom(["a", ""], 1) == Ok([Empty]);
    assert Classify("a", 0, 2) == Ok(Lit("a"));
    assert [Lit("a")] + [Empty] == [Lit("a"), Empty];
    assert ClassifyFrom(["a", ""], 0) == Ok([Lit("a"), Empty]);
  }
}

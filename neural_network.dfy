/** The text handling of the generation backend
    (text_gen/src/neural_network.py): the length bucket of a post, the
    training file built from a group's posts, and the clean-up of a
    generated text.

    The tokenizer enters only through the number of tokens it makes of a
    text and its end-of-sequence marker; training, the language model and
    sampling are not modelled, and the decoded model output is an input of
    the clean-up. A file is modelled by its content. */
module NeuralNetwork {
  import opened Text

  /** The marker `generate` puts before the hint and removes from the output. */
  const START_OF_TEXT: string := "<|startoftext|>"

  /** The end-of-sequence marker at which the output is cut. */
  const END_OF_SEQUENCE: string := "</s>"

  /** The tokenizer, as far as the text handling needs it. */
  datatype Tokenizer = Tokenizer(count: string -> nat, eos: string)

  /** `get_length_param`, from the number of tokens of the text. */
  function GetLengthParam(tokens: nat): (c: char)
    ensures c == '1' <==> tokens <= 15
    ensures c == '2' <==> 15 < tokens <= 50
    ensures c == '3' <==> 50 < tokens <= 256
    ensures c == '-' <==> tokens > 256
  {
    if tokens <= 15 then '1'
    else if tokens <= 50 then '2'
    else if tokens <= 256 then '3'
    else '-'
  }

  /** The rank of a length bucket, shortest first. */
  function Rank(c: char): nat
  {
    if c == '1' then 1 else if c == '2' then 2 else if c == '3' then 3 else 4
  }

  /** A text with more tokens never gets a shorter bucket. */
  lemma LengthParamMonotone(a: nat, b: nat)
    requires a <= b
    ensures Rank(GetLengthParam(a)) <= Rank(GetLengthParam(b))
  {
  }

  /** `re.sub(r"\n", ". ", text)`: a post on a single line. */
  function PostText(text: string): (p: string)
    ensures '\n' !in p
    ensures p == [] <==> text == []
  {
    ReplaceCharRemoves(text, '\n', ". ");
    ReplaceNotShorter(text, "\n", ". ");
    Replace(text, "\n", ". ")
  }

  /** The line written for a post, without its final newline:
      `|L|` and the post, then the end-of-sequence marker. */
  function Body(text: string, tok: Tokenizer): (b: string)
    ensures |b| == 3 + |PostText(text)| + |tok.eos|
    ensures b[0] == '|' && b[1] == GetLengthParam(tok.count(PostText(text))) && b[2] == '|'
    ensures b[3..3 + |PostText(text)|] == PostText(text) && b[3 + |PostText(text)|..] == tok.eos
    ensures '\n' !in tok.eos ==> '\n' !in b
  {
    var p := PostText(text);
    "|" + [GetLengthParam(tok.count(p))] + "|" + p + tok.eos
  }

  /** Number of empty posts. */
  function Empties(texts: seq<string>): (n: nat)
    ensures n <= |texts|
  {
    if texts == [] then 0
    else Empties(texts[..|texts| - 1]) + (if texts[|texts| - 1] == [] then 1 else 0)
  }

  /** The lines of the file, in the order of the posts, one per post that is
      not empty. */
  function Bodies(texts: seq<string>, tok: Tokenizer): (r: seq<string>)
    ensures |r| == |texts| - Empties(texts)
    ensures forall b :: b in r ==> exists i :: 0 <= i < |texts| && texts[i] != [] && b == Body(texts[i], tok)
  {
    if texts == [] then []
    else
      var init, last := texts[..|texts| - 1], texts[|texts| - 1];
      var rest := Bodies(init, tok);
      assert forall i :: 0 <= i < |init| ==> init[i] == texts[i];
      rest + (if PostText(last) == [] then [] else [Body(last, tok)])
  }

  /** A single post gives its line, or nothing when it is empty. */
  lemma BodiesSingle(t: string, tok: Tokenizer)
    ensures Bodies([t], tok) == if t == [] then [] else [Body(t, tok)]
  {
    assert [t][..0] == [];
  }

  /** The lines of two runs of posts are the lines of the first run followed
      by those of the second: one line per non-empty post, in post order. */
  lemma {:induction false} BodiesAppend(a: seq<string>, b: seq<string>, tok: Tokenizer)
    ensures Bodies(a + b, tok) == Bodies(a, tok) + Bodies(b, tok)
    decreases |b|
  {
    if b == [] {
      assert a + b == a;
    } else {
      var init := b[..|b| - 1];
      var last := b[|b| - 1];
      assert (a + b)[..|a + b| - 1] == a + init;
      assert (a + b)[|a + b| - 1] == last;
      BodiesAppend(a, init, tok);
    }
  }

  /** The content of a file holding each of the lines followed by a newline. */
  function FileText(lines: seq<string>): string
  {
    if lines == [] then [] else lines[0] + "\n" + FileText(lines[1..])
  }

  lemma {:induction false} FileTextAppend(lines: seq<string>, line: string)
    ensures FileText(lines + [line]) == FileText(lines) + line + "\n"
  {
    if lines != [] {
      assert (lines + [line])[1..] == lines[1..] + [line];
      FileTextAppend(lines[1..], line);
    }
  }

  /** A file of newline-terminated lines is the lines joined by newlines,
      with an empty piece after the last newline. */
  lemma {:induction false} FileTextJoin(lines: seq<string>)
    ensures FileText(lines) == Join(lines + [""], '\n')
  {
    if lines != [] {
      FileTextJoin(lines[1..]);
      assert (lines + [""])[1..] == lines[1..] + [""];
    }
  }

  /** Reading the training file back line by line gives exactly the lines
      written, one per non-empty post, in order. */
  lemma FileReadback(texts: seq<string>, tok: Tokenizer)
    requires '\n' !in tok.eos
    ensures Split(FileText(Bodies(texts, tok)), '\n') == Bodies(texts, tok) + [""]
  {
    var lines := Bodies(texts, tok);
    FileTextJoin(lines);
    forall p | p in lines + [""] ensures '\n' !in p {
      if p in lines {
        var i :| 0 <= i < |texts| && texts[i] != [] && p == Body(texts[i], tok);
      }
    }
    SplitJoin(lines + [""], '\n');
  }

  /** `build_text_file`: writes one line per post that is not empty after
      the newline substitution, in the order of the posts. */
  method BuildTextFile(texts: seq<string>, tok: Tokenizer) returns (file: string)
    ensures file == FileText(Bodies(texts, tok))
  {
    file := [];
    for i := 0 to |texts|
      invariant file == FileText(Bodies(texts[..i], tok))
    {
      assert texts[..i + 1][..i] == texts[..i];
      assert Bodies(texts[..i + 1], tok) ==
        Bodies(texts[..i], tok) + (if PostText(texts[i]) == [] then [] else [Body(texts[i], tok)]);
      var postText := Replace(texts[i], "\n", ". ");
      assert postText == PostText(texts[i]);
      if |postText| == 0 {
        assert Bodies(texts[..i + 1], tok) == Bodies(texts[..i], tok);
        continue;
      }
      var length := GetLengthParam(tok.count(postText));
      var line := "|" + [length] + "|" + postText + tok.eos;
      assert line == Body(texts[i], tok);
      FileTextAppend(Bodies(texts[..i], tok), line);
      file := file + line + "\n";
    }
    assert texts[..|texts|] == texts;
  }

  /** The clean-up in `NeuralGenerator.generate`: drop every start marker,
      keep what comes before the first end marker, strip whitespace. */
  function Cleanup(generated: string): (r: string)
    ensures !Contains(r, END_OF_SEQUENCE)
    ensures r == [] || (!IsSpace(r[0]) && !IsSpace(r[|r| - 1]))
  {
    var cut := BeforeFirst(Replace(generated, START_OF_TEXT, ""), END_OF_SEQUENCE);
    BeforeFirstFree(Replace(generated, START_OF_TEXT, ""), END_OF_SEQUENCE);
    var r := Strip(cut);
    NotContainsSub(cut, r, END_OF_SEQUENCE, |cut| - |StripLeft(cut)|);
    r
  }

  /** The first character of each marker does not occur again in it. */
  lemma MarkersDoNotOverlap()
    ensures forall d :: 1 <= d < |START_OF_TEXT| ==> START_OF_TEXT[d] != '<'
    ensures forall d :: 1 <= d < |END_OF_SEQUENCE| ==> END_OF_SEQUENCE[d] != '<'
  {
  }

  /** Without markers, the clean-up is just the stripping of whitespace. */
  lemma CleanupUnmarked(s: string)
    requires !Contains(s, START_OF_TEXT) && !Contains(s, END_OF_SEQUENCE)
    ensures Cleanup(s) == Strip(s)
  {
    ReplaceAbsent(s, START_OF_TEXT, "");
    BeforeFirstAbsent(s, END_OF_SEQUENCE);
  }

  /** A start marker at the front, as `generate` puts before the hint, is
      dropped by the clean-up. */
  lemma CleanupDropsStart(s: string)
    ensures Cleanup(START_OF_TEXT + s) == Cleanup(s)
  {
    var t := START_OF_TEXT + s;
    assert t[..|START_OF_TEXT|] == START_OF_TEXT && t[|START_OF_TEXT|..] == s;
    assert Replace(t, START_OF_TEXT, "") == Replace(s, START_OF_TEXT, "");
  }

  /** Everything from the first end marker on is dropped: the output is the
      stripped text before it, whatever follows. */
  lemma CleanupCut(a: string, b: string)
    requires !Contains(a, START_OF_TEXT) && !Contains(a, END_OF_SEQUENCE)
    ensures Cleanup(a + END_OF_SEQUENCE + b) == Strip(a)
  {
    var s := a + END_OF_SEQUENCE + b;
    var c := a + END_OF_SEQUENCE;
    MarkersDoNotOverlap();
    assert s == a + (END_OF_SEQUENCE + b);
    NoOccurrenceBefore(a, END_OF_SEQUENCE + b, START_OF_TEXT);
    assert s[|a|..|a| + 4] == END_OF_SEQUENCE;
    forall i | |a| <= i < |c|
      ensures !OccursAt(s, START_OF_TEXT, i)
    {
      if i + |START_OF_TEXT| <= |s| {
        assert s[i..i + |START_OF_TEXT|][0] == s[i];
        assert s[i..i + |START_OF_TEXT|][1] == s[i + 1];
      }
    }
    assert s == c + b;
    ReplaceKeepsPrefix(c, b, START_OF_TEXT, "");
    BeforeFirstAt(a, END_OF_SEQUENCE, Replace(b, START_OF_TEXT, ""));
  }
}

/** The text-generation backend (text_gen/src/server.py). A group is ready
    once its trained weights `weights/trained-{id}.pt` exist; the weights
    directory is modelled by the set of group ids that have such a file,
    and the dataset directory by the content written for each group.

    Training itself is not modelled: whether it raises is a parameter, and
    the text the model decodes for a hint is an input of `Generate`. The
    split index, `int(len(texts) * 0.1)` in the source, is a parameter
    between 0 and the number of posts. */
module TextGenServer {
  import NN = NeuralNetwork
  import Text

  /** The `result` of `check_status` for a ready group, and for any other. */
  const READY_RESULT: int := 1
  const NOT_READY_RESULT: int := 0

  /** What `add_group` sends back: an empty 200 (the handler returns
      nothing), or a server error when training raises. */
  datatype AddReply = Null | ServerError

  /** The test posts are the first `k`, the training posts the rest: the
      two parts together are the posts, in order. */
  function SplitPosts(texts: seq<string>, k: nat): (parts: (seq<string>, seq<string>))
    requires k <= |texts|
    ensures |parts.0| == k && |parts.1| == |texts| - k
    ensures parts.0 + parts.1 == texts
  {
    (texts[..k], texts[k..])
  }

  class TextGenService {
    /** The tokenizer of the base model, shared by every group. */
    const tok: NN.Tokenizer
    /** Ids of the groups whose trained weights exist. */
    var trained: set<int>
    /** `train_test_datasets/train{id}` and `train_test_datasets/test{id}`. */
    var trainFiles: map<int, string>
    var testFiles: map<int, string>

    constructor (tok: NN.Tokenizer)
      ensures this.tok == tok && trained == {} && trainFiles == map[] && testFiles == map[]
    {
      this.tok := tok;
      trained, trainFiles, testFiles := {}, map[], map[];
    }

    /** `is_model_ready`: the group's trained weights exist. */
    predicate IsModelReady(gid: int)
      reads this
    {
      gid in trained
    }

    /** `check_status`: 1 for a ready group, 0 for any other. */
    function CheckStatus(gid: int): (r: int)
      reads this
      ensures r == READY_RESULT <==> gid in trained
      ensures r == NOT_READY_RESULT <==> gid !in trained
    {
      if IsModelReady(gid) then READY_RESULT else NOT_READY_RESULT
    }

    /** `add_group`: nothing to do for a ready group. Otherwise writes the
        training file from the posts after the first `k` and the test file
        from the first `k`, trains, and renames the weights so that the
        group becomes ready; when training raises, the files stay written
        and the group stays not ready. */
    method AddGroup(gid: int, texts: seq<string>, k: nat, trainingFails: bool) returns (r: AddReply)
      requires k <= |texts|
      modifies this
      ensures old(gid in trained) ==> r == Null && unchanged(this)
      ensures !old(gid in trained) ==>
                && trainFiles == old(trainFiles)[gid := NN.FileText(NN.Bodies(texts[k..], tok))]
                && testFiles == old(testFiles)[gid := NN.FileText(NN.Bodies(texts[..k], tok))]
                && (r == Null <==> !trainingFails)
                && trained == if trainingFails then old(trained) else old(trained) + {gid}
      ensures r == Null ==> gid in trained
    {
      if IsModelReady(gid) {
        return Null;
      }
      var (testTexts, trainTexts) := SplitPosts(texts, k);
      var trainFile := NN.BuildTextFile(trainTexts, tok);
      var testFile := NN.BuildTextFile(testTexts, tok);
      trainFiles := trainFiles[gid := trainFile];
      testFiles := testFiles[gid := testFile];
      if trainingFails {
        return ServerError;
      }
      trained := trained + {gid};
      r := Null;
    }

    /** `generate`: an empty text for a group that is not ready; otherwise
        the cleaned-up text the trained model produced for the hint. */
    function Generate(gid: int, decoded: string): (r: string)
      reads this
      ensures gid !in trained ==> r == []
      ensures gid in trained ==> r == NN.Cleanup(decoded)
      ensures !Text.Contains(r, NN.END_OF_SEQUENCE)
    {
      if !IsModelReady(gid) then [] else NN.Cleanup(decoded)
    }
  }
}

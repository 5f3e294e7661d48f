/** The question record the runner keeps in its bank and in storage. */
module Questions {

  /** One multiple-choice question. `correctAnswer` is normally one of the four
      option keys, but the loader can leave another string there (see Loader). */
  datatype Question = Question(
    id: string,
    text: string,
    optionA: string,
    optionB: string,
    optionC: string,
    optionD: string,
    correctAnswer: string)

  /** The ids of a question list, in order. */
  function Ids(qs: seq<Question>): (r: seq<string>)
    ensures |r| == |qs|
    ensures forall i :: 0 <= i < |qs| ==> r[i] == qs[i].id
  {
    if qs == [] then [] else [qs[0].id] + Ids(qs[1..])
  }

  lemma IdsAppend(a: seq<Question>, b: seq<Question>)
    ensures Ids(a + b) == Ids(a) + Ids(b)
  {
  }

  /** No two questions of the list share an id. */
  predicate UniqueIds(qs: seq<Question>) {
    forall i, j :: 0 <= i < j < |qs| ==> qs[i].id != qs[j].id
  }

  /** Some question of the list has the given id. */
  predicate HasId(qs: seq<Question>, id: string) {
    id in Ids(qs)
  }
}

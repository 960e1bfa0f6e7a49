/** The tag vocabulary shared by training and inference: the single entity
    type PROJECT in BIO form, and the label-to-id table the model is built
    with (the default label list of the token-classification model). */
module Labels {

  const ProjectLabel: string := "PROJECT"
  const Outside: string := "O"
  const Begin: string := "B-PROJECT"
  const Inside: string := "I-PROJECT"

  predicate IsTag(t: string) {
    t == Outside || t == Begin || t == Inside
  }

  /** `label2id`: each label's position in the list ["O", "B-PROJECT", "I-PROJECT"]. */
  const Label2Id: map<string, int> := map[Outside := 0, Begin := 1, Inside := 2]

}

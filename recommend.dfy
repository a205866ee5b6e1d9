/**
 The `POST /recommend-job` handler: check that the four required profile
 fields are present, build the user prompt from them, and turn the outcome
 of the completion call into a response. The HTTP layer and the completion
 service itself are outside the model: the request body arrives as a map of
 JSON values, and the completion call is a function from the prompt to its
 outcome.
 */
module RecommendJob {
  import opened Strings
  import opened Sanitizer

  datatype Option<T> = None | Some(value: T)

  /** The JSON values the handler tells apart: `null` and strings. */
  datatype JsonValue = Null | Str(text: string)

  /** The decoded request body: a JSON object. */
  type Request = map<string, JsonValue>

  const RequiredFields: seq<string> := ["interests", "strengths", "weaknesses", "description"]

  /** `not data.get(field)`: the key is absent, or its value is `null` or the empty string. */
  predicate IsMissing(data: Request, field: string) {
    field !in data || data[field] == Null || data[field] == Str("")
  }

  /* ---------------------------------------------------------------------- */
  /* Validation                                                             */
  /* ---------------------------------------------------------------------- */

  /**
   `[field for field in fields if not data.get(field)]`: exactly the missing
   fields, in their original order.
   */
  function MissingAmong(fields: seq<string>, data: Request): (r: seq<string>)
    ensures |r| <= |fields|
    decreases |fields|
  {
    if fields == [] then []
    else if IsMissing(data, fields[0]) then [fields[0]] + MissingAmong(fields[1..], data)
    else MissingAmong(fields[1..], data)
  }

  /** A field is reported exactly when it is one of those checked and it is missing. */
  lemma {:induction false} MissingAmongExactly(fields: seq<string>, data: Request)
    ensures forall f :: f in MissingAmong(fields, data) <==> f in fields && IsMissing(data, f)
    decreases |fields|
  {
    if fields != [] {
      MissingAmongExactly(fields[1..], data);
      assert fields == [fields[0]] + fields[1..];
    }
  }

  /** The reported fields keep the order in which they were checked. */
  lemma {:induction false} MissingAmongKeepsOrder(fields: seq<string>, data: Request)
    ensures IsSubsequence(MissingAmong(fields, data), fields)
    decreases |fields|
  {
    if fields != [] {
      var rest := MissingAmong(fields[1..], data);
      MissingAmongKeepsOrder(fields[1..], data);
      if IsMissing(data, fields[0]) {
        assert ([fields[0]] + rest)[1..] == rest;
      }
    }
  }

  /** The list `missing` of the handler: the required fields that are missing, and only those. */
  function Missing(data: Request): (r: seq<string>)
    ensures forall f :: f in r <==> f in RequiredFields && IsMissing(data, f)
  {
    MissingAmongExactly(RequiredFields, data);
    MissingAmong(RequiredFields, data)
  }

  /** The fixed start of the 400 error text. */
  const MissingPrefix: string := "Missing fields: "

  /** The 400 error text: the missing names joined by a comma and a space. */
  function MissingMessage(missing: seq<string>): string {
    MissingPrefix + Join(missing, ", ")
  }

  /** The singleton list `[field]` when `field` is missing, else the empty list. */
  function Kept(data: Request, field: string): seq<string> {
    if IsMissing(data, field) then [field] else []
  }

  /** The check of the first field comes first. */
  lemma MissingAmongCons(f: string, fields: seq<string>, data: Request)
    ensures MissingAmong([f] + fields, data) == Kept(data, f) + MissingAmong(fields, data)
  {
    assert ([f] + fields)[1..] == fields;
  }

  /** A reference definition of `missing`: each required field in turn, kept when missing. */
  lemma MissingInOrder(data: Request)
    ensures Missing(data) ==
      Kept(data, "interests") + Kept(data, "strengths") + Kept(data, "weaknesses") + Kept(data, "description")
  {
    var i, s, w, d := Kept(data, "interests"), Kept(data, "strengths"), Kept(data, "weaknesses"), Kept(data, "description");
    MissingAmongFour("interests", "strengths", "weaknesses", "description", data);
    assert i + (s + (w + d)) == i + s + w + d;
  }

  /** The checks of two fields, in order. */
  lemma MissingAmongTwo(c: string, d: string, data: Request)
    ensures MissingAmong([c, d], data) == Kept(data, c) + Kept(data, d)
  {
    MissingAmongCons(d, [], data);
    assert [d] + [] == [d];
    assert MissingAmong([d], data) == Kept(data, d);
    MissingAmongCons(c, [d], data);
    assert [c] + [d] == [c, d];
  }

  /** The checks of four fields, in order. */
  lemma MissingAmongFour(a: string, b: string, c: string, d: string, data: Request)
    ensures MissingAmong([a, b, c, d], data) == Kept(data, a) + (Kept(data, b) + (Kept(data, c) + Kept(data, d)))
  {
    MissingAmongTwo(c, d, data);
    MissingAmongCons(b, [c, d], data);
    assert [b] + [c, d] == [b, c, d];
    MissingAmongCons(a, [b, c, d], data);
    assert [a] + [b, c, d] == [a, b, c, d];
  }

  /**
   Any non-empty string value is truthy in Python, so it is not reported
   missing; this includes a value made only of whitespace, which is not
   trimmed before the test.
   */
  lemma NonEmptyIsNotMissing(data: Request, field: string)
    requires field in data && data[field].Str? && data[field].text != []
    ensures field !in Missing(data)
  {
  }

  /** No required field name contains a comma, so the joined names split back apart. */
  lemma RequiredFieldsHaveNoComma()
    ensures forall x :: x in RequiredFields ==> ',' !in x
  {
    forall x | x in RequiredFields ensures ',' !in x {
      if x == "interests" {
      } else if x == "strengths" {
      } else if x == "weaknesses" {
      } else {
        assert x == "description";
      }
    }
  }

  /**
   The message lists exactly the missing fields: splitting what follows the
   prefix at `", "` gives back the list.
   */
  lemma MissingMessageLists(data: Request)
    requires Missing(data) != []
    ensures MissingMessage(Missing(data))[..|MissingPrefix|] == MissingPrefix
    ensures SplitOn(MissingMessage(Missing(data))[|MissingPrefix|..], ", ") == Missing(data)
  {
    var missing := Missing(data);
    MissingAmongExactly(RequiredFields, data);
    RequiredFieldsHaveNoComma();
    SplitOnJoin(missing, ", ");
    assert MissingMessage(missing)[|MissingPrefix|..] == Join(missing, ", ");
  }

  /* ---------------------------------------------------------------------- */
  /* Prompt                                                                 */
  /* ---------------------------------------------------------------------- */

  const Instruction: string := "Give a funny, overly honest job recommendation."

  /** How an f-string renders a JSON value: `null` becomes Python's `None`. */
  function Render(v: JsonValue): string {
    match v
    case Null => "None"
    case Str(s) => s
  }

  /** `data.get('name', 'User')`, rendered. */
  function NameOf(data: Request): string {
    if "name" in data then Render(data["name"]) else "User"
  }

  /** What `data['interests']` and the other three subscripts need: the keys are present. */
  predicate HasRequiredKeys(data: Request) {
    "interests" in data && "strengths" in data && "weaknesses" in data && "description" in data
  }

  /** One labelled line of the prompt, `f"{tag}{value}\n"`. */
  function Labelled(tag: string, value: string): string {
    tag + value + "\n"
  }

  /** `user_msg`: five labelled lines, then the fixed instruction. */
  function BuildPrompt(data: Request): string
    requires HasRequiredKeys(data)
  {
    Labelled("Name: ", NameOf(data))
    + Labelled("Interests: ", Render(data["interests"]))
    + Labelled("Strengths: ", Render(data["strengths"]))
    + Labelled("Weaknesses: ", Render(data["weaknesses"]))
    + Labelled("Description: ", Render(data["description"]))
    + Instruction
  }

  /**
   The lines of the prompt without their line breaks, the instruction last;
   `PromptIsLines` joins them back into the prompt.
   */
  function PromptLines(data: Request): (r: seq<string>)
    requires HasRequiredKeys(data)
    ensures |r| == 6 && r[5] == Instruction
  {
    ["Name: " + NameOf(data),
     "Interests: " + Render(data["interests"]),
     "Strengths: " + Render(data["strengths"]),
     "Weaknesses: " + Render(data["weaknesses"]),
     "Description: " + Render(data["description"]),
     Instruction]
  }

  /** The middle piece of a concatenation occurs in it. */
  lemma OccursInMiddle(a: string, b: string, c: string)
    ensures Occurs(b, a + b + c)
  {
    assert (a + b + c)[|a|..|a| + |b|] == b;
    assert OccursAt(b, a + b + c, |a|);
  }

  /** In a concatenation of six pieces each of the inner four occurs, and the outer two sit at the ends. */
  lemma SixPieces(a: string, b: string, c: string, d: string, e: string, f: string)
    ensures var p := a + b + c + d + e + f;
      && Occurs(b, p) && Occurs(c, p) && Occurs(d, p) && Occurs(e, p)
      && p[..|a|] == a && p[|p| - |f|..] == f
  {
    var p := a + b + c + d + e + f;
    OccursInMiddle(a, b, c + d + e + f);
    assert p == a + b + (c + d + e + f);
    OccursInMiddle(a + b, c, d + e + f);
    assert p == (a + b) + c + (d + e + f);
    OccursInMiddle(a + b + c, d, e + f);
    assert p == (a + b + c) + d + (e + f);
    OccursInMiddle(a + b + c + d, e, f);
  }

  /**
   The prompt holds each required value verbatim on its labelled line,
   starts with the name line and ends with the fixed instruction.
   */
  lemma PromptMentionsEveryField(data: Request)
    requires HasRequiredKeys(data)
    ensures var p := BuildPrompt(data);
      && Occurs(Labelled("Interests: ", Render(data["interests"])), p)
      && Occurs(Labelled("Strengths: ", Render(data["strengths"])), p)
      && Occurs(Labelled("Weaknesses: ", Render(data["weaknesses"])), p)
      && Occurs(Labelled("Description: ", Render(data["description"])), p)
      && p[..|Labelled("Name: ", NameOf(data))|] == Labelled("Name: ", NameOf(data))
      && p[|p| - |Instruction|..] == Instruction
  {
    SixPieces(Labelled("Name: ", NameOf(data)),
      Labelled("Interests: ", Render(data["interests"])),
      Labelled("Strengths: ", Render(data["strengths"])),
      Labelled("Weaknesses: ", Render(data["weaknesses"])),
      Labelled("Description: ", Render(data["description"])),
      Instruction);
  }

  /** Without a `name` key the prompt addresses the user as `User`. */
  lemma PromptDefaultsToUser(data: Request)
    requires HasRequiredKeys(data) && "name" !in data
    ensures BuildPrompt(data)[..11] == "Name: User\n"
  {
  }

  /** The prompt is its lines joined by line breaks. */
  lemma PromptIsLines(data: Request)
    requires HasRequiredKeys(data)
    ensures BuildPrompt(data) == Join(PromptLines(data), "\n")
  {
    var ls := PromptLines(data);
    JoinSix(ls[0], ls[1], ls[2], ls[3], ls[4], ls[5], "\n");
    assert ls == [ls[0], ls[1], ls[2], ls[3], ls[4], ls[5]];
  }

  /** The fixed instruction holds no line break. */
  lemma InstructionIsOneLine()
    ensures '\n' !in Instruction
  {
    InstructionChunks();
    NoBreakInChunks();
  }

  /** The instruction as four shorter pieces. */
  lemma InstructionChunks()
    ensures Instruction == "Give a funny" + ", overly " + "honest job" + " recommendation."
  {
  }

  /** None of the four pieces of the instruction holds a line break. */
  lemma NoBreakInChunks()
    ensures '\n' !in "Give a funny" + ", overly " + "honest job" + " recommendation."
  {
    var a, b, c, d := "Give a funny", ", overly ", "honest job", " recommendation.";
    assert '\n' !in a && '\n' !in b && '\n' !in c && '\n' !in d;
  }

  /**
   When no value contains a line break, splitting the prompt into lines
   recovers each labelled field line and the instruction.
   */
  lemma PromptLinesRoundTrip(data: Request)
    requires HasRequiredKeys(data)
    requires '\n' !in NameOf(data)
    requires '\n' !in Render(data["interests"]) && '\n' !in Render(data["strengths"])
    requires '\n' !in Render(data["weaknesses"]) && '\n' !in Render(data["description"])
    ensures SplitOn(BuildPrompt(data), "\n") == PromptLines(data)
  {
    var ls := PromptLines(data);
    assert '\n' !in "Name: " && '\n' !in "Interests: " && '\n' !in "Strengths: ";
    assert '\n' !in "Weaknesses: " && '\n' !in "Description: ";
    InstructionIsOneLine();
    forall x | x in ls ensures '\n' !in x {
      var k :| 0 <= k < 6 && ls[k] == x;
    }
    PromptIsLines(data);
    SplitOnJoin(ls, "\n");
  }

  /* ---------------------------------------------------------------------- */
  /* Responses                                                              */
  /* ---------------------------------------------------------------------- */

  /** The JSON body of a response: the cleaned recommendation, or an error with optional details. */
  datatype Body = Recommendation(text: string) | Error(error: string, details: Option<string>)

  datatype Response = Response(status: int, body: Body)

  /**
   The outcome of the completion call: it raised (with the exception's text),
   or it returned a list of choices whose message content may be `null`.
   */
  datatype Completion = Raised(details: string) | Choices(contents: seq<Option<string>>)

  /** The `try` block after the prompt is built, and its `except` clause. */
  function HandleCompletion(c: Completion): (r: Response)
    ensures r.status == 200 <==>
      c.Choices? && |c.contents| > 0 && c.contents[0].Some? && c.contents[0].value != []
    ensures r.status == 200 ==> r.body == Recommendation(CleanOutput(c.contents[0].value))
    ensures r.status != 200 ==> r.status == 500 && r.body.Error?
    ensures c.Raised? ==> r.body == Error("Groq API error", Some(c.details))
  {
    match c
    case Raised(details) => Response(500, Error("Groq API error", Some(details)))
    case Choices(contents) =>
      var choice := if |contents| > 0 then contents[0] else None;
      if choice == None || choice == Some([]) then Response(500, Error("No response from Groq", None))
      else Response(200, Recommendation(CleanOutput(choice.value)))
  }

  /** No choice, a `null` content and an empty content all give the same 500, never a success. */
  lemma NoChoiceIsServerError(c: Completion)
    requires c.Choices? && (c.contents == [] || c.contents[0] == None || c.contents[0] == Some([]))
    ensures HandleCompletion(c) == Response(500, Error("No response from Groq", None))
  {
  }

  /**
   A choice made only of whitespace passes the emptiness test, so the
   handler reports success with an empty recommendation.
   */
  lemma BlankChoiceSucceedsEmpty(c: Completion)
    requires c.Choices? && |c.contents| > 0 && c.contents[0].Some?
    requires c.contents[0].value != [] && AllSpace(c.contents[0].value)
    ensures HandleCompletion(c) == Response(200, Recommendation([]))
  {
    var s := c.contents[0].value;
    var r := CleanOutput(s);
    if r != [] {
      CleanOutputIsSubsequence(s);
      SubsequenceElements(r, s, r[0]);
      assert false;
    }
  }

  /**
   `recommend_job` on a decoded body; `complete` stands for the completion
   call and receives the prompt.
   */
  function Recommend(data: Request, complete: string -> Completion): (r: Response)
    ensures r.status == 400 <==> exists f :: f in RequiredFields && IsMissing(data, f)
    ensures r.status == 400 ==> r.body == Error(MissingMessage(Missing(data)), None)
    ensures Missing(data) == [] ==> HasRequiredKeys(data) && r == HandleCompletion(complete(BuildPrompt(data)))
  {
    var missing := Missing(data);
    if missing != [] then Response(400, Error(MissingMessage(missing), None))
    else
      assert "interests" in RequiredFields && "strengths" in RequiredFields;
      assert "weaknesses" in RequiredFields && "description" in RequiredFields;
      HandleCompletion(complete(BuildPrompt(data)))
  }

  /** With only `interests` present, the other three are missing, in order. */
  lemma OnlyInterestsMissing(data: Request)
    requires data == map["interests" := Str("coding")]
    ensures Missing(data) == ["strengths", "weaknesses", "description"]
  {
    MissingInOrder(data);
    assert Kept(data, "interests") == [];
    assert Kept(data, "strengths") == ["strengths"];
    assert Kept(data, "weaknesses") == ["weaknesses"];
    assert Kept(data, "description") == ["description"];
  }

  /** The three missing names, joined. */
  lemma ThreeMissingNames()
    ensures Join(["strengths", "weaknesses", "description"], ", ") == "strengths, weaknesses, description"
  {
    JoinThree("strengths", "weaknesses", "description", ", ");
    assert "strengths" + ", " == "strengths, ";
    assert "weaknesses" + ", " == "weaknesses, ";
  }

  /** A body with only `interests` is rejected, naming the other three in order. */
  lemma OnlyInterestsIsRejected(complete: string -> Completion)
    ensures Recommend(map["interests" := Str("coding")], complete)
      == Response(400, Error(MissingPrefix + "strengths, weaknesses, description", None))
  {
    var data := map["interests" := Str("coding")];
    OnlyInterestsMissing(data);
    ThreeMissingNames();
  }
}

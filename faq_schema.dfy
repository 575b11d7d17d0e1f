/** The FAQ schema generator: an editable list of question and answer pairs
    and the JSON-LD `FAQPage` block built from the complete ones. */
module FaqSchema {
  import opened Text
  import opened Json

  datatype Faq = Faq(question: string, answer: string)

  datatype Field = Question | Answer

  const EmptyFaq := Faq("", "")

  const ScriptOpen := "<script type=\"application/ld+json\">\n"
  const ScriptClose := "\n</script>"

  /** The list without the entry at `index`; an index outside the list
      removes nothing. */
  function Without(faqs: seq<Faq>, index: int): (r: seq<Faq>)
    ensures 0 <= index < |faqs| ==>
      && |r| == |faqs| - 1
      && (forall k :: 0 <= k < index ==> r[k] == faqs[k])
      && (forall k :: index <= k < |r| ==> r[k] == faqs[k + 1])
    ensures !(0 <= index < |faqs|) ==> r == faqs
  {
    if 0 <= index < |faqs| then faqs[..index] + faqs[index + 1..] else faqs
  }

  function SetField(f: Faq, field: Field, value: string): (r: Faq)
    ensures field == Question ==> r.question == value && r.answer == f.answer
    ensures field == Answer ==> r.answer == value && r.question == f.question
  {
    match field
    case Question => f.(question := value)
    case Answer => f.(answer := value)
  }

  /** Both the question and the answer have a non-whitespace character. */
  predicate Complete(f: Faq) {
    Trim(f.question) != [] && Trim(f.answer) != []
  }

  /** `faqs.filter(f => f.question.trim() && f.answer.trim())`. */
  function CompleteFaqs(faqs: seq<Faq>): (r: seq<Faq>)
    ensures |r| <= |faqs|
    ensures forall k :: 0 <= k < |r| ==> Complete(r[k])
  {
    if faqs == [] then []
    else (if Complete(faqs[0]) then [faqs[0]] else []) + CompleteFaqs(faqs[1..])
  }

  /** Nothing is kept exactly when no entry is complete. */
  lemma {:induction false} NoneComplete(faqs: seq<Faq>)
    ensures CompleteFaqs(faqs) == [] <==> forall k :: 0 <= k < |faqs| ==> !Complete(faqs[k])
  {
    if faqs != [] {
      NoneComplete(faqs[1..]);
      assert forall k :: 1 <= k < |faqs| ==> faqs[k] == faqs[1..][k - 1];
    }
  }

  /** A list of complete entries is kept whole. */
  lemma {:induction false} AllComplete(faqs: seq<Faq>)
    requires forall k :: 0 <= k < |faqs| ==> Complete(faqs[k])
    ensures CompleteFaqs(faqs) == faqs
  {
    if faqs != [] {
      var rest := faqs[1..];
      assert CompleteFaqs(rest) == rest by {
        forall k | 0 <= k < |rest| ensures Complete(rest[k]) {
          assert rest[k] == faqs[k + 1];
        }
        AllComplete(rest);
      }
      assert CompleteFaqs(faqs) == [faqs[0]] + CompleteFaqs(rest) by {
        assert Complete(faqs[0]);
      }
      Uncons(faqs);
    }
  }

  /** The filter keeps the order: it distributes over concatenation. */
  lemma {:induction false} CompleteFaqsAppend(a: seq<Faq>, b: seq<Faq>)
    ensures CompleteFaqs(a + b) == CompleteFaqs(a) + CompleteFaqs(b)
  {
    if a == [] {
      assert a + b == b;
    } else {
      var head := if Complete(a[0]) then [a[0]] else [];
      assert (a + b)[0] == a[0];
      assert (a + b)[1..] == a[1..] + b;
      CompleteFaqsAppend(a[1..], b);
      calc {
        CompleteFaqs(a + b);
        head + CompleteFaqs(a[1..] + b);
        head + (CompleteFaqs(a[1..]) + CompleteFaqs(b));
        { Associate(head, CompleteFaqs(a[1..]), CompleteFaqs(b)); }
        (head + CompleteFaqs(a[1..])) + CompleteFaqs(b);
        CompleteFaqs(a) + CompleteFaqs(b);
      }
    }
  }

  /** One `Question` object of `mainEntity`. */
  function QuestionOf(f: Faq): Json {
    JObject([
      Member("@type", JString("Question")),
      Member("name", JString(Trim(f.question))),
      Member("acceptedAnswer", JObject([
        Member("@type", JString("Answer")),
        Member("text", JString(Trim(f.answer)))]))])
  }

  /** The `FAQPage` object for the complete entries. */
  function SchemaOf(faqs: seq<Faq>): Json {
    var valid := CompleteFaqs(faqs);
    JObject([
      Member("@context", JString("https://schema.org")),
      Member("@type", JString("FAQPage")),
      Member("mainEntity", JArray(seq(|valid|, k requires 0 <= k < |valid| => QuestionOf(valid[k]))))])
  }

  /** `mainEntity` holds one `Question` per complete entry, in list order,
      named by the trimmed question and answered by the trimmed answer. */
  lemma MainEntity(faqs: seq<Faq>)
    ensures var j := SchemaOf(faqs);
      && j.JObject? && |j.members| == 3
      && j.members[0] == Member("@context", JString("https://schema.org"))
      && j.members[1] == Member("@type", JString("FAQPage"))
      && j.members[2].key == "mainEntity" && j.members[2].value.JArray?
    ensures var entities := SchemaOf(faqs).members[2].value.items;
      var valid := CompleteFaqs(faqs);
      |entities| == |valid|
      && forall k :: 0 <= k < |valid| ==>
        entities[k].JObject? && |entities[k].members| == 3
        && entities[k].members[0] == Member("@type", JString("Question"))
        && entities[k].members[1] == Member("name", JString(Trim(valid[k].question)))
        && entities[k].members[2].key == "acceptedAnswer"
        && entities[k].members[2].value == JObject([
             Member("@type", JString("Answer")),
             Member("text", JString(Trim(valid[k].answer)))])
  {
  }

  /** `generateSchema`: nothing when no entry is complete, otherwise the
      pretty-printed `FAQPage` object inside a JSON-LD script element. */
  function GenerateSchema(faqs: seq<Faq>): (r: string)
    ensures r == [] <==> CompleteFaqs(faqs) == []
    ensures r != [] ==>
      |r| > |ScriptOpen| + |ScriptClose|
      && r[..|ScriptOpen|] == ScriptOpen
      && r[|r| - |ScriptClose|..] == ScriptClose
      && r[|ScriptOpen|..|r| - |ScriptClose|] == Stringify(SchemaOf(faqs), 0)
  {
    if CompleteFaqs(faqs) == [] then ""
    else ScriptOpen + Stringify(SchemaOf(faqs), 0) + ScriptClose
  }

  /** Entries that are not complete do not show in the schema. */
  lemma IncompleteIgnored(faqs: seq<Faq>, f: Faq)
    requires !Complete(f)
    ensures GenerateSchema(faqs + [f]) == GenerateSchema(faqs)
    ensures GenerateSchema([f] + faqs) == GenerateSchema(faqs)
  {
    CompleteFaqsAppend(faqs, [f]);
    CompleteFaqsAppend([f], faqs);
    assert CompleteFaqs([f]) == [];
    assert CompleteFaqs(faqs) + [] == CompleteFaqs(faqs);
    assert [] + CompleteFaqs(faqs) == CompleteFaqs(faqs);
    assert SchemaOf(faqs + [f]) == SchemaOf(faqs);
    assert SchemaOf([f] + faqs) == SchemaOf(faqs);
  }

  /** The editor's list of pairs. */
  class FaqEditor {
    var faqs: seq<Faq>

    /** The list is never empty. */
    ghost predicate Valid()
      reads this
    {
      faqs != []
    }

    /** The editor starts with one empty pair. */
    constructor ()
      ensures Valid() && faqs == [EmptyFaq]
    {
      faqs := [EmptyFaq];
    }

    /** `addFaq`: one empty pair at the end. */
    method Add()
      requires Valid()
      modifies this
      ensures Valid()
      ensures faqs == old(faqs) + [EmptyFaq]
    {
      faqs := faqs + [EmptyFaq];
    }

    /** `removeFaq`: the entry at `index` goes; removing the last one left
        puts a single empty pair back. */
    method Remove(index: int)
      requires Valid()
      modifies this
      ensures Valid()
      ensures |old(faqs)| == 1 && index == 0 ==> faqs == [EmptyFaq]
      ensures |old(faqs)| > 1 || index != 0 ==> faqs == Without(old(faqs), index)
    {
      var remaining := Without(faqs, index);
      faqs := if |remaining| > 0 then remaining else [EmptyFaq];
    }

    /** `updateFaq`: one field of one entry changes, nothing else. The
        index is always one of the list's, as the page only offers the
        entries it shows. */
    method Update(index: nat, field: Field, value: string)
      requires Valid() && index < |faqs|
      modifies this
      ensures Valid()
      ensures |faqs| == |old(faqs)|
      ensures faqs[index] == SetField(old(faqs)[index], field, value)
      ensures forall k :: 0 <= k < |faqs| && k != index ==> faqs[k] == old(faqs)[k]
    {
      var updated := faqs;
      updated := updated[index := SetField(updated[index], field, value)];
      faqs := updated;
    }

    /** The code box's content. */
    function Schema(): string
      reads this
    {
      GenerateSchema(faqs)
    }
  }
}

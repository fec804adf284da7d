/**
 * The fixed texts the assistant answers with. The out-of-scope message of
 * models/processors/llm_chain.py is a link to the question form around one
 * `{question}` field; it is spelled here in short pieces so that the
 * verifier can check, piece by piece, which characters it holds.
 */
module Messages {

  /** Text with neither a format brace nor a markdown star. */
  predicate Plain(s: string) {
    '{' !in s && '*' !in s
  }

  const Prefix0: string := "Chào bạn, cảm ơn bạn đã gửi câu hỏi đến "
  const Prefix1: string := "chúng tôi. Tuy nhiên, hiện tại nội dung "
  const Prefix2: string := "câu hỏi nằm ngoài phạm vi hỗ trợ của hệ "
  const Prefix3: string := "thống. Để được giải đáp chi tiết hơn, "
  const Prefix4: string := "bạn có thể <a href='https://"
  const Prefix5: string := "hcmute-consultant.vercel.app/"
  const Prefix6: string := "create-question"
  const Prefix7: string := "?content="
  const Suffix0: string := "' class='text-primary "
  const Suffix1: string := "hover:underline'>đặt câu hỏi tại đây</"
  const Suffix2: string := "a> để được tư vấn viên trả lời. Chúng "
  const Suffix3: string := "tôi sẽ ghi nhận câu hỏi này và cập nhật "
  const Suffix4: string := "thêm dữ liệu để có thể trả lời tốt hơn "
  const Suffix5: string := "trong tương lai. Rất mong bạn thông cảm."

  /** The message up to the link's `content` parameter, which carries the question. */
  const FallbackPrefix: string :=
    Prefix0 + Prefix1 + Prefix2 + Prefix3 + Prefix4 + Prefix5 + Prefix6 + Prefix7
  /** The same link without the parameter, as the router spells its canonical message. */
  const LinkOnlyPrefix: string :=
    Prefix0 + Prefix1 + Prefix2 + Prefix3 + Prefix4 + Prefix5 + Prefix6
  /** The message after the question. */
  const FallbackSuffix: string :=
    Suffix0 + Suffix1 + Suffix2 + Suffix3 + Suffix4 + Suffix5

  lemma Prefix0Plain() ensures Plain(Prefix0) { }
  lemma Prefix1Plain() ensures Plain(Prefix1) { }
  lemma Prefix2Plain() ensures Plain(Prefix2) { }
  lemma Prefix3Plain() ensures Plain(Prefix3) { }
  lemma Prefix4Plain() ensures Plain(Prefix4) { }
  lemma Prefix5Plain() ensures Plain(Prefix5) { }
  lemma Prefix6Plain() ensures Plain(Prefix6) { }
  lemma Prefix7Plain() ensures Plain(Prefix7) { }
  lemma Suffix0Plain() ensures Plain(Suffix0) { }
  lemma Suffix1Plain() ensures Plain(Suffix1) { }
  lemma Suffix2Plain() ensures Plain(Suffix2) { }
  lemma Suffix3Plain() ensures Plain(Suffix3) { }
  lemma Suffix4Plain() ensures Plain(Suffix4) { }
  lemma Suffix5Plain() ensures Plain(Suffix5) { }

  lemma PlainAppend(a: string, b: string)
    requires Plain(a) && Plain(b)
    ensures Plain(a + b)
  {
  }

  /** The message's own text has no format brace and no markdown star. */
  lemma FallbackPiecesPlain()
    ensures Plain(FallbackPrefix) && Plain(LinkOnlyPrefix) && Plain(FallbackSuffix)
  {
    Prefix0Plain();
    Prefix1Plain();
    PlainAppend(Prefix0, Prefix1);
    Prefix2Plain();
    PlainAppend(Prefix0 + Prefix1, Prefix2);
    Prefix3Plain();
    PlainAppend(Prefix0 + Prefix1 + Prefix2, Prefix3);
    Prefix4Plain();
    PlainAppend(Prefix0 + Prefix1 + Prefix2 + Prefix3, Prefix4);
    Prefix5Plain();
    PlainAppend(Prefix0 + Prefix1 + Prefix2 + Prefix3 + Prefix4, Prefix5);
    Prefix6Plain();
    PlainAppend(Prefix0 + Prefix1 + Prefix2 + Prefix3 + Prefix4 + Prefix5, Prefix6);
    Prefix7Plain();
    PlainAppend(LinkOnlyPrefix, Prefix7);
    Suffix0Plain();
    Suffix1Plain();
    PlainAppend(Suffix0, Suffix1);
    Suffix2Plain();
    PlainAppend(Suffix0 + Suffix1, Suffix2);
    Suffix3Plain();
    PlainAppend(Suffix0 + Suffix1 + Suffix2, Suffix3);
    Suffix4Plain();
    PlainAppend(Suffix0 + Suffix1 + Suffix2 + Suffix3, Suffix4);
    Suffix5Plain();
    PlainAppend(Suffix0 + Suffix1 + Suffix2 + Suffix3 + Suffix4, Suffix5);
  }

  /** The message opens with a letter and closes with a full stop, so stripping leaves it as it is. */
  lemma FallbackEnds()
    ensures FallbackPrefix != [] && FallbackPrefix[0] == 'C'
    ensures FallbackSuffix != [] && FallbackSuffix[|FallbackSuffix| - 1] == '.'
  {
    assert Prefix0[0] == 'C';
    assert FallbackPrefix[0] == Prefix0[0];
    assert Suffix5[|Suffix5| - 1] == '.';
    assert FallbackSuffix[|FallbackSuffix| - 1] == Suffix5[|Suffix5| - 1];
  }

  /** Reply of `process_query` to any exception. */
  const Apology: string := "Xin lỗi, tôi không thể xử lý yêu cầu của bạn. Vui lòng thử lại sau."
  /** Reply of `process_query` when the RAG answer has no text. */
  const NoAnswer: string := "Xin lỗi, không nhận được câu trả lời. Vui lòng thử lại sau."
}

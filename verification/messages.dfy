/** Fixed user-facing strings and the two prompt templates of the analysis
    pipeline (main.py). Every text is kept character for character, so that
    the model's outcomes can be compared with the service's replies. */
module Messages {

  /** Rejection of a missing, empty or one-character sentence (main.py:175). */
  const TooShort: string := "الجملة قصيرة جدًا. 🙃"

  /** Rejection by the Arabic-ratio gate (main.py:60). */
  const NotArabic: string := "الجملة تحتوي على أحرف غير عربية أو غير مفهومة. 🙃"

  /** Failure to obtain a bearer token, at either stage (main.py:64, 118). */
  const TokenFailure: string := "Failed to obtain access token. Please check the API key and network connection."

  /** Prefix of the upstream-failure message; the response body follows it (main.py:105, 155). */
  const UpstreamPrefix: string := "في مشكلة: "

  /** Rejection when the validation stage flags the sentence (main.py:110). */
  const ValidationRejected: string := "الحقييقققهه، الجملة قصيرة بزيادة أو فيها رموز غير مفهومة. 🙃"

  /** Result substituted for an empty analysis (main.py:160). */
  const Fallback: string := "الجملة غير صحيحة أو لا يمكن تحليلها. جرب جملة ثانية! 😊"

  /** The two markers searched for in the validation text: "incomplete" and "not understood" (main.py:109). */
  const IncompleteMarker: string := "غير مكتملة"
  const NotUnderstoodMarker: string := "غير مفهومة"

  /** Quiz feedback for an equal and an unequal answer (main.py:387, 389). */
  const QuizCorrect: string := "إجابتك صحيحة! 🎉"
  const QuizWrong: string := "إجابتك خاطئة، حاول مرة أخرى. 😅"

  /** The four worked examples of case-ending analysis shared by both
      prompts (main.py:70-81, 123-134). A function rather than a constant,
      so that its long text enters a proof only where a prompt is rendered. */
  function WorkedExamples(): string {
    "مثال 1: ذهب أحمد إلى المدرسة.\n"
    + "الإعراب: ذهب: فعل ماضٍ مبني على الفتح، أحمد: فاعل مرفوع وعلامة رفعه الضمة الظاهرة على آخره، "
    + "إلى: حرف جر، المدرسة: اسم مجرور وعلامة جره الكسرة الظاهرة على آخره.\n\n"
    + "مثال 2: السماء صافية اليوم.\n"
    + "الإعراب: السماء: مبتدأ مرفوع وعلامة رفعه الضمة الظاهرة على آخره، صافية: خبر مرفوع وعلامة رفعه الضمة الظاهرة على آخره، "
    + "اليوم: ظرف زمان منصوب وعلامة نصبه الفتحة الظاهرة على آخره.\n\n"
    + "مثال 3: الطالب يذاكر دروسه بجدية.\n"
    + "الإعراب: الطالب: مبتدأ مرفوع وعلامة رفعه الضمة الظاهرة على آخره، يذاكر: فعل مضارع مرفوع وعلامة رفعه الضمة الظاهرة على آخره، "
    + "دروسه: مفعول به منصوب وعلامة نصبه الفتحة الظاهرة على آخره، والهاء: ضمير متصل في محل جر بالإضافة، بجدية: جار ومجرور.\n\n"
    + "مثال 4: القمر يضيء السماء ليلاً.\n"
    + "الإعراب: القمر: مبتدأ مرفوع وعلامة رفعه الضمة الظاهرة على آخره، يضيء: فعل مضارع مرفوع وعلامة رفعه الضمة الظاهرة على آخره، "
    + "السماء: مفعول به منصوب وعلامة نصبه الفتحة الظاهرة على آخره، ليلاً: ظرف زمان منصوب وعلامة نصبه الفتحة الظاهرة على آخره.\n\n"
  }

  /** Opening instruction of the validation prompt (main.py:68-69). */
  const ValidationInstruction: string :=
    "رجاءً قم بتحليل الجملة التالية دون أي تفكير إضافي.ولا تقدم أي معلومات إضافية "
    + "لا تهتم بالمنطق أو المعنى، فقط قم بالتحليل النحوي كما هو:\n\n"

  /** Opening instruction of the full-analysis prompt (main.py:122). */
  const AnalysisInstruction: string :=
    "رجاءً قم بإعراب كامل للجملة التالية فقط ولا تقدم أي معلومات إضافية:\n\n"

  /** Label that introduces the user's sentence in both prompts (main.py:82, 135). */
  const SentenceLabel: string := "الجملة: "

  /** Cue appended after the sentence in the full-analysis prompt (main.py:135). */
  const AnalysisCue: string := "\nالإعراب:"
}

/**
 * The quiz store: the static quiz catalogue, the reversible answer cipher
 * (a per-character xor with a repeating salt, wrapped in base 64), the
 * rolling password hash and the password rule, and the append-only log of
 * quiz attempts with its "latest attempt for a quiz" query.
 */
module QuizUtils {
  import opened JsCore
  import Base64

  datatype QuestionType = MultipleChoice | Text | Image

  datatype QuizQuestion = QuizQuestion(
    id: string,
    questionType: QuestionType,
    question: string,
    options: Option<seq<string>>,
    imageUrl: Option<string>,
    answer: string)  // the enciphered answer

  datatype QuizConfig = QuizConfig(
    id: string,
    title: string,
    description: string,
    questions: seq<QuizQuestion>,
    passwordHash: Option<string>)

  datatype UserAnswer = UserAnswer(questionId: string, answer: string)

  datatype QuizAttempt = QuizAttempt(quizId: string, timestamp: int, answers: seq<UserAnswer>)

  const EncryptionSalt: string := "NorwegianQuiz2025"
  const DefaultPassword: string := "17mai"
  const DecryptionFailure: string := "Dekrypteringsfeil"

  // ---------------------------------------------------------------------------
  // The answer cipher
  // ---------------------------------------------------------------------------

  function XorUnit(a: CodeUnit, b: CodeUnit): CodeUnit
  {
    Pow2Values();
    XorBelow(a, b, 16);
    Xor(a, b)
  }

  /** Each code unit xor-ed with the salt unit at the same position modulo the salt's length. */
  function XorWithSalt(units: JsString, salt: JsString): (r: JsString)
    requires |salt| > 0 || |units| == 0
    ensures |r| == |units|
  {
    seq(|units|, i requires 0 <= i < |units| => XorUnit(units[i], salt[i % |salt|]))
  }

  /** `Array.from(s)` followed by `charCodeAt(0)` on each element: one unit per code point, the high surrogate for astral ones. */
  function CodePointUnits(s: string): (u: JsString)
    ensures |u| == |s|
  {
    seq(|s|, i requires 0 <= i < |s| => FirstUnit(s[i]))
  }

  /** encryptAnswer; None stands for the exception raised by an empty salt or by `btoa`. */
  function EncryptAnswer(answer: string, salt: string): Option<string>
  {
    var units := CodePointUnits(answer);
    var s := Utf16(salt);
    if |units| > 0 && |s| == 0 then None  // salt[i % 0] is undefined
    else Base64.Btoa(XorWithSalt(units, s))
  }

  /** decryptAnswer: every failure is caught and turned into the fixed error text. */
  function DecryptAnswer(encrypted: string, salt: string): JsString
  {
    match Base64.Atob(encrypted)
    case None => Utf16(DecryptionFailure)
    case Some(bytes) =>
      var s := Utf16(salt);
      if |bytes| > 0 && |s| == 0 then Utf16(DecryptionFailure)
      else XorWithSalt(CodeUnitsAsCodePoints(bytes), s)
  }

  predicate IsHighSurrogate(x: CodeUnit) { 0xD800 <= x < 0xDC00 }

  predicate IsLowSurrogate(x: CodeUnit) { 0xDC00 <= x < 0xE000 }

  /**
   * `Array.from` on a string held as code units: a high surrogate directly
   * followed by a low one forms one element, every other unit is an element
   * of its own.
   */
  function SplitCodePoints(u: JsString): (parts: seq<JsString>)
    ensures forall k :: 0 <= k < |parts| ==> 1 <= |parts[k]| <= 2
    ensures |parts| <= |u| && (|u| > 0 ==> |parts| > 0)
    decreases |u|
  {
    if |u| == 0 then []
    else if |u| >= 2 && IsHighSurrogate(u[0]) && IsLowSurrogate(u[1]) then [u[..2]] + SplitCodePoints(u[2..])
    else [u[..1]] + SplitCodePoints(u[1..])
  }

  /** `charCodeAt(0)` of every element. */
  function FirstUnits(parts: seq<JsString>): (r: JsString)
    requires forall k :: 0 <= k < |parts| ==> |parts[k]| > 0
    ensures |r| == |parts| && forall k :: 0 <= k < |parts| ==> r[k] == parts[k][0]
  {
    seq(|parts|, k requires 0 <= k < |parts| => parts[k][0])
  }

  /** One-byte units contain no surrogates, so splitting and taking first units gives the units back. */
  lemma {:induction false} SplitLatin1(u: JsString)
    requires Latin1Units(u)
    ensures FirstUnits(SplitCodePoints(u)) == u
    decreases |u|
  {
    if |u| > 0 {
      assert !IsHighSurrogate(u[0]);
      var rest := u[1..];
      assert Latin1Units(rest) by {
        forall i | 0 <= i < |rest| ensures rest[i] < 0x100 { assert rest[i] == u[i + 1]; }
      }
      SplitLatin1(rest);
      var parts := SplitCodePoints(rest);
      assert SplitCodePoints(u) == [u[..1]] + parts;
      var r := FirstUnits([u[..1]] + parts);
      assert r[0] == u[0];
      forall k | 1 <= k < |u| ensures r[k] == u[k] {
        assert ([u[..1]] + parts)[k] == parts[k - 1];
        assert FirstUnits(parts)[k - 1] == rest[k - 1];
      }
    }
  }

  /**
   * `Array.from(decoded)` followed by `charCodeAt(0)` on each element, as
   * decryptAnswer does it. On the one-byte units that `atob` returns it keeps
   * the units as they are.
   */
  /** A surrogate pair is one element of `Array.from`, read through its high surrogate. */
  lemma SplitSurrogatePair(hi: CodeUnit, lo: CodeUnit)
    requires IsHighSurrogate(hi) && IsLowSurrogate(lo)
    ensures FirstUnits(SplitCodePoints([hi, lo])) == [hi]
  {
    var u: JsString := [hi, lo];
    assert u[..2] == u && u[2..] == [];
    assert SplitCodePoints(u) == [u];
  }

  function CodeUnitsAsCodePoints(u: JsString): (r: JsString)
    ensures |r| <= |u|
    ensures Latin1Units(u) ==> r == u
  {
    var r := FirstUnits(SplitCodePoints(u));
    if Latin1Units(u) then SplitLatin1(u); r else r
  }

  /** The xor layer is an involution for a fixed non-empty salt. */
  lemma XorWithSaltTwice(units: JsString, salt: JsString)
    requires |salt| > 0
    ensures XorWithSalt(XorWithSalt(units, salt), salt) == units
  {
    var once := XorWithSalt(units, salt);
    var twice := XorWithSalt(once, salt);
    forall i | 0 <= i < |units|
      ensures twice[i] == units[i]
    {
      XorSelfInverse(units[i], salt[i % |salt|]);
    }
  }

  /** Xor with a one-byte salt keeps one-byte units one-byte: what lets `btoa` accept the result. */
  lemma XorWithSaltLatin1(units: JsString, salt: JsString)
    requires |salt| > 0 || |units| == 0
    requires Latin1Units(units) && Latin1Units(salt)
    ensures Latin1Units(XorWithSalt(units, salt))
  {
    var r := XorWithSalt(units, salt);
    forall i | 0 <= i < |units|
      ensures r[i] < 0x100
    {
      Pow2Values();
      XorBelow(units[i], salt[i % |salt|], 8);
    }
  }

  /** Whenever encryption succeeds, decryption with the same salt gives back the answer's code-point units. */
  lemma DecryptEncrypt(answer: string, salt: string)
    requires EncryptAnswer(answer, salt).Some?
    ensures DecryptAnswer(EncryptAnswer(answer, salt).value, salt) == CodePointUnits(answer)
  {
    var units := CodePointUnits(answer);
    var s := Utf16(salt);
    var x := XorWithSalt(units, s);
    Base64.AtobBtoa(x);
    if |units| > 0 {
      XorWithSaltTwice(units, s);
    }
  }

  /** Encryption succeeds for one-byte answers and a one-byte, non-empty salt. */
  lemma EncryptLatin1(answer: string, salt: string)
    requires Latin1(answer) && Latin1(salt) && |salt| > 0
    ensures EncryptAnswer(answer, salt).Some?
    ensures CodePointUnits(answer) == Utf16(answer)
  {
    Utf16OfLatin1(salt);
    Utf16OfLatin1(answer);
    var s := Utf16(salt);
    var units := CodePointUnits(answer);
    assert Latin1Units(s);
    assert Latin1Units(units);
    XorWithSaltLatin1(units, s);
  }

  /** The round trip of the cipher: decrypt(encrypt(a, s), s) == a for one-byte strings and a non-empty salt. */
  lemma CipherRoundTrip(answer: string, salt: string)
    requires Latin1(answer) && Latin1(salt) && |salt| > 0
    ensures EncryptAnswer(answer, salt).Some?
    ensures DecryptAnswer(EncryptAnswer(answer, salt).value, salt) == Utf16(answer)
  {
    EncryptLatin1(answer, salt);
    DecryptEncrypt(answer, salt);
  }

  /** A string that `atob` rejects decrypts to the error text rather than raising. */
  lemma DecryptRejected(encrypted: string, salt: string)
    requires exists i :: 0 <= i < |encrypted| && encrypted[i] == '!'
    ensures DecryptAnswer(encrypted, salt) == Utf16(DecryptionFailure)
  {
    var i :| 0 <= i < |encrypted| && encrypted[i] == '!';
    BangSurvivesStripping(encrypted, i);
  }

  lemma {:induction false} BangSurvivesStripping(s: string, i: int)
    requires 0 <= i < |s| && s[i] == '!'
    ensures Base64.Atob(s).None?
  {
    var t := Base64.StripWhitespace(s);
    StripKeeps(s, i);
    var j :| 0 <= j < |t| && t[j] == '!';
    var p := Base64.RemovePadding(t);
    assert j < |p|;
    if |p| % 4 != 1 {
      DigitsOfRejects(p, j);
    }
  }

  lemma {:induction false} StripKeeps(s: string, i: int)
    requires 0 <= i < |s| && s[i] == '!'
    ensures exists j :: 0 <= j < |Base64.StripWhitespace(s)| && Base64.StripWhitespace(s)[j] == '!'
  {
    var t := Base64.StripWhitespace(s);
    if i == 0 {
      assert t[0] == '!';
    } else {
      StripKeeps(s[1..], i - 1);
      var j :| 0 <= j < |Base64.StripWhitespace(s[1..])| && Base64.StripWhitespace(s[1..])[j] == '!';
      if Base64.IsAsciiWhitespace(s[0]) {
        assert t[j] == '!';
      } else {
        assert t[j + 1] == '!';
      }
    }
  }

  lemma {:induction false} DigitsOfRejects(s: string, j: int)
    requires 0 <= j < |s| && s[j] == '!'
    ensures Base64.DigitsOf(s).None?
  {
    if j > 0 {
      DigitsOfRejects(s[1..], j - 1);
    }
  }

  // ---------------------------------------------------------------------------
  // Passwords
  // ---------------------------------------------------------------------------

  /** hashPassword as a value: the rolling hash of the password's code units, printed in signed base 16. */
  function PasswordHash(password: string): (h: string)
    ensures |h| > 0
  {
    NumberToString(StringHash(Utf16(password)), 16)
  }

  /** hashPassword as the source computes it, one code unit at a time. */
  method HashPassword(password: string) returns (r: string)
    ensures r == PasswordHash(password)
  {
    var units := Utf16(password);
    var hash := 0;
    var i := 0;
    while i < |units|
      invariant 0 <= i <= |units|
      invariant hash == StringHash(units[..i])
    {
      var c := units[i];
      assert units[..i + 1][..i] == units[..i];
      hash := ShiftLeft5(hash) - hash + c;
      hash := ToInt32(hash);  // hash & hash
      i := i + 1;
    }
    assert units[..i] == units;
    r := NumberToString(hash, 16);
  }

  /** The printed hash reads back, in base 16, as the 32-bit rolling hash of the password. */
  lemma PasswordHashReadsBack(password: string)
    ensures IsInt32(StringHash(Utf16(password)))
    ensures ParseNumber(PasswordHash(password), 16) == Some(StringHash(Utf16(password)))
  {
    NumberToStringRoundTrip(StringHash(Utf16(password)), 16);
  }

  /** The empty password hashes to "0". */
  lemma EmptyPasswordHash()
    ensures PasswordHash("") == "0"
  {
  }

  /** Two passwords have the same printed hash exactly when their 32-bit hashes agree. */
  lemma PasswordHashesEqual(a: string, b: string)
    ensures PasswordHash(a) == PasswordHash(b) <==> StringHash(Utf16(a)) == StringHash(Utf16(b))
  {
    NumberToStringInjective(StringHash(Utf16(a)), StringHash(Utf16(b)), 16);
  }

  /** isPasswordCorrect; `quiz.passwordHash` is used only when it is a non-empty string. */
  function IsPasswordCorrect(password: string, quiz: Option<QuizConfig>): bool
  {
    if quiz.None? then password == DefaultPassword
    else if quiz.value.passwordHash.Some? && quiz.value.passwordHash.value != "" then
      PasswordHash(password) == quiz.value.passwordHash.value
    else password == DefaultPassword
  }

  /** A quiz whose hash is the hash of `secret` accepts exactly the passwords that collide with `secret`. */
  lemma PasswordRule(password: string, quiz: QuizConfig, secret: string)
    requires quiz.passwordHash == Some(PasswordHash(secret))
    ensures IsPasswordCorrect(password, Some(quiz)) <==> StringHash(Utf16(password)) == StringHash(Utf16(secret))
    ensures IsPasswordCorrect(secret, Some(quiz))
  {
    PasswordHashesEqual(password, secret);
  }

  /** Without a quiz, or with a quiz that has no usable hash, only the default password is accepted. */
  lemma PasswordFallback(password: string, quiz: Option<QuizConfig>)
    requires quiz.Some? ==> quiz.value.passwordHash.None? || quiz.value.passwordHash == Some("")
    ensures IsPasswordCorrect(password, quiz) <==> password == DefaultPassword
  {
  }

  /** Both catalogue quizzes carry their own hash, so the default-password fallback never applies to them. */
  lemma CataloguePasswords(password: string, salt: string)
    ensures IsPasswordCorrect(password, Some(MixedQuiz(salt))) <==> StringHash(Utf16(password)) == StringHash(Utf16(MixedPassword))
    ensures IsPasswordCorrect(password, Some(NorwayQuiz(salt))) <==> StringHash(Utf16(password)) == StringHash(Utf16(NorwayPassword))
    ensures IsPasswordCorrect(MixedPassword, Some(MixedQuiz(salt))) && IsPasswordCorrect(NorwayPassword, Some(NorwayQuiz(salt)))
  {
    PasswordRule(password, MixedQuiz(salt), MixedPassword);
    PasswordRule(password, NorwayQuiz(salt), NorwayPassword);
    PasswordRule(MixedPassword, MixedQuiz(salt), MixedPassword);
    PasswordRule(NorwayPassword, NorwayQuiz(salt), NorwayPassword);
  }

  // ---------------------------------------------------------------------------
  // The attempt log
  // ---------------------------------------------------------------------------

  /**
   * The attempt `getUserAnswersForQuiz` picks: of the attempts for `quizId`,
   * one with the greatest timestamp, and of those the earliest in the log
   * (filter, then a stable sort by descending timestamp, then the first).
   */
  function LatestAttempt(log: seq<QuizAttempt>, quizId: string): (r: Option<nat>)
    ensures r.None? <==> forall i :: 0 <= i < |log| ==> log[i].quizId != quizId
    ensures r.Some? ==> r.value < |log| && log[r.value].quizId == quizId
    ensures r.Some? ==> forall i :: 0 <= i < |log| && log[i].quizId == quizId ==> log[i].timestamp <= log[r.value].timestamp
    ensures r.Some? ==> forall i :: 0 <= i < r.value && log[i].quizId == quizId ==> log[i].timestamp < log[r.value].timestamp
  {
    if |log| == 0 then None
    else
      var rest := LatestAttempt(log[1..], quizId);
      if log[0].quizId == quizId && (rest.None? || log[0].timestamp >= log[rest.value + 1].timestamp) then Some(0)
      else if rest.None? then None
      else Some(rest.value + 1)
  }

  /** getUserAnswersForQuiz over an in-memory log. */
  function AnswersForQuiz(log: seq<QuizAttempt>, quizId: string): seq<UserAnswer>
  {
    match LatestAttempt(log, quizId)
    case None => []
    case Some(k) => log[k].answers
  }

  /** The attempt picked is the only one with the greatest timestamp and no earlier rival. */
  lemma LatestAttemptUnique(log: seq<QuizAttempt>, quizId: string, k: nat)
    requires k < |log| && log[k].quizId == quizId
    requires forall i :: 0 <= i < |log| && log[i].quizId == quizId ==> log[i].timestamp <= log[k].timestamp
    requires forall i :: 0 <= i < k && log[i].quizId == quizId ==> log[i].timestamp < log[k].timestamp
    ensures LatestAttempt(log, quizId) == Some(k)
  {
    var r := LatestAttempt(log, quizId).value;
    assert log[r].timestamp <= log[k].timestamp;
    assert log[k].timestamp <= log[r].timestamp;
  }

  /** An attempt saved with a timestamp later than every earlier attempt for its quiz is what is loaded next. */
  lemma SaveNewestThenLoad(log: seq<QuizAttempt>, attempt: QuizAttempt)
    requires forall i :: 0 <= i < |log| && log[i].quizId == attempt.quizId ==> log[i].timestamp < attempt.timestamp
    ensures AnswersForQuiz(log + [attempt], attempt.quizId) == attempt.answers
  {
    var log' := log + [attempt];
    LatestAttemptUnique(log', attempt.quizId, |log|);
  }

  /** An attempt whose timestamp does not beat an earlier one for its quiz changes nothing: on a tie the earlier attempt wins. */
  lemma SaveNotNewerThenLoad(log: seq<QuizAttempt>, attempt: QuizAttempt)
    requires exists i :: 0 <= i < |log| && log[i].quizId == attempt.quizId && attempt.timestamp <= log[i].timestamp
    ensures LatestAttempt(log + [attempt], attempt.quizId) == LatestAttempt(log, attempt.quizId)
    ensures AnswersForQuiz(log + [attempt], attempt.quizId) == AnswersForQuiz(log, attempt.quizId)
  {
    var log' := log + [attempt];
    var k := LatestAttempt(log, attempt.quizId).value;
    assert log'[k] == log[k];
    assert forall i :: 0 <= i < |log| ==> log'[i] == log[i];
    LatestAttemptUnique(log', attempt.quizId, k);
  }

  /** Saving an attempt for another quiz does not change what is loaded for this one. */
  lemma SaveOtherQuiz(log: seq<QuizAttempt>, attempt: QuizAttempt, quizId: string)
    requires attempt.quizId != quizId
    ensures AnswersForQuiz(log + [attempt], quizId) == AnswersForQuiz(log, quizId)
  {
    var log' := log + [attempt];
    assert forall i :: 0 <= i < |log| ==> log'[i] == log[i];
    match LatestAttempt(log, quizId)
    case None =>
    case Some(k) =>
      LatestAttemptUnique(log', quizId, k);
  }

  /** The attempt log kept in the browser's storage, as an in-memory object. */
  class QuizStore {
    var attempts: seq<QuizAttempt>

    constructor (saved: seq<QuizAttempt>)
      ensures attempts == saved
    {
      attempts := saved;
    }

    /** saveQuizAttempt: the attempt is appended and the earlier ones are kept as they were. */
    method SaveQuizAttempt(attempt: QuizAttempt)
      modifies this
      ensures attempts == old(attempts) + [attempt]
      ensures |attempts| == |old(attempts)| + 1 && attempts[|attempts| - 1] == attempt
      ensures forall i :: 0 <= i < |old(attempts)| ==> attempts[i] == old(attempts)[i]
    {
      attempts := attempts + [attempt];
    }

    function GetUserAnswersForQuiz(quizId: string): seq<UserAnswer>
      reads this
    {
      AnswersForQuiz(attempts, quizId)
    }
  }

  // ---------------------------------------------------------------------------
  // The catalogue
  // ---------------------------------------------------------------------------

  /** A salt the catalogue answers can be enciphered with. */
  predicate ValidSalt(salt: string)
  {
    Latin1(salt) && |salt| > 0
  }

  /**
   * An answer as the catalogue stores it: what encryptAnswer returns. An
   * answer it rejects would abort loading the module; the empty string
   * stands in for that case, which the shipped answers never reach.
   */
  function Cipher(plain: string, salt: string): (c: string)
    ensures Latin1(plain) && ValidSalt(salt) ==> EncryptAnswer(plain, salt) == Some(c)
  {
    if Latin1(plain) && ValidSalt(salt) then
      EncryptLatin1(plain, salt);
      EncryptAnswer(plain, salt).value
    else ""
  }

  /** A multiple-choice question, its answer still in plain text. */
  function MultipleChoice(id: string, question: string, options: seq<string>, plain: string): QuizQuestion
  {
    QuizQuestion(id, QuestionType.MultipleChoice, question, Some(options), None, plain)
  }

  /** A free-text question, its answer still in plain text. */
  function TextQuestion(id: string, question: string, plain: string): QuizQuestion
  {
    QuizQuestion(id, QuestionType.Text, question, None, None, plain)
  }

  predicate PlainAnswersLatin1(questions: seq<QuizQuestion>)
  {
    forall i :: 0 <= i < |questions| ==> Latin1(questions[i].answer)
  }

  /** Each one-byte answer, enciphered with a valid salt, deciphers to its plain text. */
  lemma CipherAnswersRoundTrip(questions: seq<QuizQuestion>, salt: string)
    requires PlainAnswersLatin1(questions) && ValidSalt(salt)
    ensures forall i :: 0 <= i < |questions| ==>
              DecryptAnswer(Cipher(questions[i].answer, salt), salt) == Utf16(questions[i].answer)
  {
    forall i | 0 <= i < |questions|
      ensures DecryptAnswer(Cipher(questions[i].answer, salt), salt) == Utf16(questions[i].answer)
    {
      CipherRoundTrip(questions[i].answer, salt);
    }
  }

  /**
   * Every answer enciphered with `salt`, everything else kept: the ids,
   * texts and options stay, and with one-byte answers and a valid salt each
   * stored answer deciphers to the plain one.
   */
  function Enciphered(questions: seq<QuizQuestion>, salt: string): (r: seq<QuizQuestion>)
    ensures |r| == |questions|
    ensures forall i :: 0 <= i < |r| ==> r[i] == questions[i].(answer := Cipher(questions[i].answer, salt))
    ensures forall i :: 0 <= i < |r| ==>
              r[i].id == questions[i].id && r[i].question == questions[i].question && r[i].options == questions[i].options
    ensures PlainAnswersLatin1(questions) && ValidSalt(salt) ==>
              forall i :: 0 <= i < |r| ==> DecryptAnswer(r[i].answer, salt) == Utf16(questions[i].answer)
  {
    var r := seq(|questions|, i requires 0 <= i < |questions| => questions[i].(answer := Cipher(questions[i].answer, salt)));
    if PlainAnswersLatin1(questions) && ValidSalt(salt) then CipherAnswersRoundTrip(questions, salt); r else r
  }

  /** The passwords whose hashes the two shipped quizzes carry. */
  const MixedPassword: string := "allmenn"
  const NorwayPassword: string := "norge"

  /** Every enciphered catalogue answer deciphers, with the same salt, to its plain text. */
  lemma EncipheredRoundTrip(questions: seq<QuizQuestion>, salt: string, i: int)
    requires PlainAnswersLatin1(questions) && ValidSalt(salt)
    requires 0 <= i < |questions|
    ensures DecryptAnswer(Enciphered(questions, salt)[i].answer, salt) == Utf16(questions[i].answer)
  {
    CipherRoundTrip(questions[i].answer, salt);
  }

  const MixedQuestions: seq<QuizQuestion> :=
    [
      MultipleChoice("1", "Når er Norges nasjonaldag?", ["1. mai", "17. mai", "6. juni", "24. desember"], "17. mai"),
      TextQuestion("2", "Hva heter Norges hovedstad?", "Oslo"),
      MultipleChoice("3", "Hvilken farge er ikke i det norske flagget?", ["Rød", "Hvit", "Blå", "Gul"], "Gul"),
      MultipleChoice("4", "Hvilket år startet andre verdenskrig?", ["1914", "1939", "1945", "1950"], "1939"),
      TextQuestion("5", "Hva er hovedingrediensen i guacamole?", "Avokado"),
      MultipleChoice("6", "Hvilken planet er kjent som den røde planeten?", ["Venus", "Jupiter", "Mars", "Saturn"], "Mars"),
      MultipleChoice("7", "Hva er hovedstaden i Japan?", ["Beijing", "Seoul", "Tokyo", "Bangkok"], "Tokyo"),
      TextQuestion("8", "Hvor mange bein har et voksent menneske?", "206"),
      MultipleChoice("9", "Hvilket element har symbolet \"O\" i periodesystemet?", ["Osmium", "Oksygen", "Oganesson", "Oksid"], "Oksygen"),
      MultipleChoice("10", "Hvilken frukt er kjent som \"kjærlighetseple\" på norsk?", ["Eple", "Tomat", "Fersken", "Jordbær"], "Tomat")
    ]

  const NorwayQuestions: seq<QuizQuestion> :=
    [
      MultipleChoice("1", "Hva heter Norges høyeste fjell?", ["Glittertind", "Galdhøpiggen", "Snøhetta", "Gaustatoppen"], "Galdhøpiggen"),
      TextQuestion("2", "Hvilken by kalles \"Nordens Paris\"?", "Trondheim"),
      MultipleChoice("3", "Hvilket år fikk Norge sin egen grunnlov?", ["1814", "1905", "1945", "1994"], "1814"),
      MultipleChoice("4", "Hvilken norsk forfatter skrev \"Sult\"?", ["Henrik Ibsen", "Knut Hamsun", "Sigrid Undset", "Jo Nesbø"], "Knut Hamsun"),
      TextQuestion("5", "Hva heter Norges lengste elv?", "Glomma")
    ]

  /** The general-knowledge quiz has ten questions and the Norway quiz five. */
  lemma QuestionCounts()
    ensures |MixedQuestions| == 10 && |NorwayQuestions| == 5
  {
  }

  /** Both question lists number their questions "1", "2", ... in order, so their ids overlap. */
  lemma QuestionIds()
    ensures |MixedQuestions| == 10 && |NorwayQuestions| == 5
    ensures forall j :: 0 <= j < |NorwayQuestions| ==> NorwayQuestions[j].id == MixedQuestions[j].id
    ensures forall a, b :: 0 <= a < b < |MixedQuestions| ==> MixedQuestions[a].id != MixedQuestions[b].id
  {
  }

  /** The general-knowledge quiz, its answers enciphered with `salt`. */
  function MixedQuiz(salt: string): QuizConfig
  {
    QuizConfig(
      "mixed-quiz",
      "Allmennkunnskap Quiz",
      "Test din kunnskap om Norge og verden",
      Enciphered(MixedQuestions, salt),
      Some(PasswordHash(MixedPassword)))
  }

  /** The quiz about Norway, its answers enciphered with `salt`. */
  function NorwayQuiz(salt: string): QuizConfig
  {
    QuizConfig(
      "norway-quiz",
      "Norgesquiz",
      "Test din kunnskap om Norge",
      Enciphered(NorwayQuestions, salt),
      Some(PasswordHash(NorwayPassword)))
  }

  function Catalogue(salt: string): seq<QuizConfig>
  {
    [MixedQuiz(salt), NorwayQuiz(salt)]
  }

  /** The quizzes the application ships, enciphered with the application salt. */
  const Quizzes: seq<QuizConfig> := Catalogue(EncryptionSalt)

  /** The index of the first quiz in the list with the given id, if any. */
  function FindQuizIndex(quizzes: seq<QuizConfig>, id: string): (r: Option<nat>)
    ensures r.None? <==> forall i :: 0 <= i < |quizzes| ==> quizzes[i].id != id
    ensures r.Some? ==> r.value < |quizzes| && quizzes[r.value].id == id
    ensures r.Some? ==> forall j :: 0 <= j < r.value ==> quizzes[j].id != id
  {
    if |quizzes| == 0 then None
    else if quizzes[0].id == id then Some(0)
    else
      match FindQuizIndex(quizzes[1..], id)
      case None => None
      case Some(k) => Some(k + 1)
  }

  /** `Array.prototype.find` by id. */
  function FindQuiz(quizzes: seq<QuizConfig>, id: string): Option<QuizConfig>
  {
    match FindQuizIndex(quizzes, id)
    case None => None
    case Some(k) => Some(quizzes[k])
  }

  /** getQuizById over the catalogue. */
  function GetQuizById(id: string): Option<QuizConfig>
  {
    FindQuiz(Quizzes, id)
  }

  /** Lookup in a list of two quizzes, case by case. */
  lemma FindQuizOfPair(quizzes: seq<QuizConfig>, id: string)
    requires |quizzes| == 2
    ensures quizzes[0].id == id ==> FindQuiz(quizzes, id) == Some(quizzes[0])
    ensures quizzes[0].id != id && quizzes[1].id == id ==> FindQuiz(quizzes, id) == Some(quizzes[1])
    ensures quizzes[0].id != id && quizzes[1].id != id ==> FindQuiz(quizzes, id).None?
  {
    if quizzes[0].id != id && quizzes[1].id == id {
      assert FindQuizIndex(quizzes, id) == Some(1);
    }
  }

  /** The first catalogue id finds its quiz, whatever the salt. */
  lemma MixedQuizLookup(salt: string)
    ensures FindQuiz(Catalogue(salt), "mixed-quiz") == Some(MixedQuiz(salt))
  {
    FindQuizOfPair(Catalogue(salt), "mixed-quiz");
  }

  /** The second catalogue id finds its quiz, since the first quiz has another id. */
  lemma NorwayQuizLookup(salt: string)
    ensures FindQuiz(Catalogue(salt), "norway-quiz") == Some(NorwayQuiz(salt))
  {
    assert "mixed-quiz"[0] != "norway-quiz"[0];
    FindQuizOfPair(Catalogue(salt), "norway-quiz");
  }

  /** Any other id finds nothing. */
  lemma UnknownQuizLookup(salt: string, id: string)
    requires id != "mixed-quiz" && id != "norway-quiz"
    ensures FindQuiz(Catalogue(salt), id).None?
  {
    FindQuizOfPair(Catalogue(salt), id);
  }

  /** getQuizById finds exactly the two shipped quizzes. */
  lemma GetQuizByIdCases(id: string)
    ensures id == "mixed-quiz" ==> GetQuizById(id) == Some(MixedQuiz(EncryptionSalt))
    ensures id == "norway-quiz" ==> GetQuizById(id) == Some(NorwayQuiz(EncryptionSalt))
    ensures id != "mixed-quiz" && id != "norway-quiz" ==> GetQuizById(id).None?
  {
    if id == "mixed-quiz" {
      MixedQuizLookup(EncryptionSalt);
    } else if id == "norway-quiz" {
      NorwayQuizLookup(EncryptionSalt);
    } else {
      UnknownQuizLookup(EncryptionSalt, id);
    }
  }

  /** The question counts of the shipped quizzes. */
  lemma CatalogueSizes(salt: string)
    ensures |Catalogue(salt)| == 2
    ensures |Catalogue(salt)[0].questions| == 10 && |Catalogue(salt)[1].questions| == 5
  {
    QuestionCounts();
  }

  /** The application salt is one the catalogue can be enciphered with. */
  lemma SaltIsValid()
    ensures ValidSalt(EncryptionSalt)
  {
  }

  /** Enciphering keeps the question ids of both quizzes. */
  lemma CatalogueQuestionIds(salt: string)
    ensures |MixedQuiz(salt).questions| == |MixedQuestions| && |NorwayQuiz(salt).questions| == |NorwayQuestions|
    ensures forall j :: 0 <= j < |MixedQuestions| ==> MixedQuiz(salt).questions[j].id == MixedQuestions[j].id
    ensures forall j :: 0 <= j < |NorwayQuestions| ==> NorwayQuiz(salt).questions[j].id == NorwayQuestions[j].id
  {
    EncipheredIds(MixedQuestions, salt);
    EncipheredIds(NorwayQuestions, salt);
  }

  lemma EncipheredIds(questions: seq<QuizQuestion>, salt: string)
    ensures |Enciphered(questions, salt)| == |questions|
    ensures forall j :: 0 <= j < |questions| ==> Enciphered(questions, salt)[j].id == questions[j].id
  {
  }

  /** Every plain answer of the catalogue fits in one byte per character, so enciphering never fails. */
  lemma CatalogueAnswersLatin1()
    ensures PlainAnswersLatin1(MixedQuestions) && PlainAnswersLatin1(NorwayQuestions)
  {
    MixedAnswersLatin1();
    NorwayAnswersLatin1();
  }

  lemma MixedAnswersLatin1()
    ensures PlainAnswersLatin1(MixedQuestions)
  {
    forall i | 0 <= i < |MixedQuestions|
      ensures Latin1(MixedQuestions[i].answer)
    {
    }
  }

  lemma NorwayAnswersLatin1()
    ensures PlainAnswersLatin1(NorwayQuestions)
  {
    forall i | 0 <= i < |NorwayQuestions|
      ensures Latin1(NorwayQuestions[i].answer)
    {
    }
  }

  /** Each shipped answer deciphers, with the application salt, to the UTF-16 units of its plain text. */
  lemma ShippedAnswersDecrypt(k: nat, j: nat)
    requires k < 2
    requires j < |(if k == 0 then MixedQuestions else NorwayQuestions)|
    ensures ValidSalt(EncryptionSalt) && |Quizzes| == 2
    ensures j < |Quizzes[k].questions|
    ensures DecryptAnswer(Quizzes[k].questions[j].answer, EncryptionSalt) ==
            Utf16((if k == 0 then MixedQuestions else NorwayQuestions)[j].answer)
  {
    SaltIsValid();
    CatalogueAnswersLatin1();
    var plain := if k == 0 then MixedQuestions else NorwayQuestions;
    assert Quizzes[k].questions == Enciphered(plain, EncryptionSalt);
    EncipheredRoundTrip(plain, EncryptionSalt, j);
  }

  /** The shipped catalogue: two quizzes, each with questions to draw from. */
  lemma ShippedCatalogue()
    ensures ValidSalt(EncryptionSalt)
    ensures |Quizzes| == 2
    ensures forall k :: 0 <= k < |Quizzes| ==> |Quizzes[k].questions| > 0
  {
    SaltIsValid();
    CatalogueSizes(EncryptionSalt);
    var c := Catalogue(EncryptionSalt);
    assert Quizzes == c;
    forall k | 0 <= k < |c|
      ensures |c[k].questions| > 0
    {
      if k == 0 {
        assert |c[0].questions| == 10;
      } else {
        assert |c[1].questions| == 5;
      }
    }
  }
}

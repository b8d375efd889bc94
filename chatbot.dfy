/**
 * The reply routing of the `/chat` endpoint of the Nova Tech Solutions chatbot
 * backend. A message is lower-cased and stripped, then tested against a fixed,
 * ordered table of keyword rules; the first rule one of whose keywords occurs
 * in the normalised message gives a canned reply. When no rule fires, a prompt
 * built from the original message is handed to the language model, whose
 * stripped output is the reply, or a fixed apology when the call raises.
 *
 * The language model and the case mapping of `str.lower()` are parameters:
 * `generate` stands for the whole inference call, from prompt to outcome.
 */
module Chatbot {
  import opened PyStr
  import opened Wrappers

  /** The canned answers. */
  datatype Answer =
    | Greeting | Services | WebDevelopment | AiIntegration | MobileApp
    | UiUx | Cloud | DigitalMarketing | Mission | ContactInfo

  /** A rule fires when any of its keywords occurs in the normalised message. */
  datatype Rule = Rule(keywords: seq<string>, answer: Answer)

  /** The key of the scraped site data that holds the contact information,
      and the text used when the site data has no such key. */
  const CONTACT_KEY := "contact_info"
  const CONTACT_DEFAULT := "You can reach us via our Contact page."

  const APOLOGY := "Sorry, something went wrong. Please try again later."

  /** The rule table, in the order the handler tests it. */
  const RULES: seq<Rule> := [
    Rule(["hello", "hi", "hey"], Greeting),
    Rule(["services"], Services),
    Rule(["web development"], WebDevelopment),
    Rule(["ai integration"], AiIntegration),
    Rule(["mobile app"], MobileApp),
    Rule(["ui/ux"], UiUx),
    Rule(["cloud"], Cloud),
    Rule(["digital marketing"], DigitalMarketing),
    Rule(["mission", "about"], Mission),
    Rule(["contact", "support"], ContactInfo)
  ]

  const GREETING_RULE := 0
  const SERVICES_RULE := 1
  const CONTACT_RULE := 9

  /** The text of an answer; for the contact answer,
      `websiteData.get("contact_info", default)`. */
  function AnswerText(answer: Answer, websiteData: map<string, string>): string {
    match answer
    case Greeting => "Hello! \U{1F44B} How can I assist you today?"
    case Services => "We offer Web Development, AI Integration, Mobile App Development, UI/UX Design, Cloud Solutions, and Digital Marketing. Ask about any!"
    case WebDevelopment => "We build modern, responsive websites tailored to your business needs."
    case AiIntegration => "We integrate AI technologies to automate, optimize, and innovate your business operations."
    case MobileApp => "We develop mobile apps for iOS and Android with a focus on performance and user experience."
    case UiUx => "Our UI/UX experts create beautiful and intuitive designs to maximize user satisfaction."
    case Cloud => "We provide scalable cloud computing solutions to future-proof your business."
    case DigitalMarketing => "We boost your online presence with SEO, social media, and strategic digital campaigns."
    case Mission => "Our mission is to deliver secure, innovative IT solutions that empower businesses in the digital era."
    case ContactInfo => if CONTACT_KEY in websiteData then websiteData[CONTACT_KEY] else CONTACT_DEFAULT
  }

  /** Python's `any(word in s for word in words)`. */
  function AnyOccurs(words: seq<string>, s: string): (r: bool)
    ensures r <==> exists k :: 0 <= k < |words| && Occurs(words[k], s)
  {
    if words == [] then false else Occurs(words[0], s) || AnyOccurs(words[1..], s)
  }

  /** The outcome of testing the rule table. */
  datatype Route = Matched(index: nat) | Fallback

  /** The first rule of `rules` that fires on `s`, if any. */
  function FirstFiring(rules: seq<Rule>, s: string): (r: Route)
    ensures r.Matched? ==> r.index < |rules| && AnyOccurs(rules[r.index].keywords, s)
    ensures r.Matched? ==> forall j :: 0 <= j < r.index ==> !AnyOccurs(rules[j].keywords, s)
    ensures r.Fallback? <==> forall j :: 0 <= j < |rules| ==> !AnyOccurs(rules[j].keywords, s)
  {
    if rules == [] then
      Fallback
    else if AnyOccurs(rules[0].keywords, s) then
      Matched(0)
    else
      match FirstFiring(rules[1..], s)
      case Matched(i) => Matched(i + 1)
      case Fallback => Fallback
  }

  /** `message.lower().strip()`: the text the rules are tested against. */
  function Normalise(message: string, lower: CaseMap): (r: string)
    ensures IsStripOf(r, Lower(message, lower))
  {
    Strip(Lower(message, lower))
  }

  /** Which rule answers `message`, or none. */
  function Decide(message: string, lower: CaseMap): Route {
    FirstFiring(RULES, Normalise(message, lower))
  }

  const PROMPT_HEAD :=
    "\nYou are a professional assistant for Nova Tech Solutions.\n"
    + "Answer clearly, confidently, and politely. Only discuss Nova Tech Solutions' services, products, careers, or support.\n"
    + "\nUser: \""
  const PROMPT_TAIL := "\"\nAssistant:\n"

  /** The prompt handed to the model: the original, un-normalised message
      quoted inside a fixed template. */
  function Prompt(message: string): (p: string)
    ensures |p| == |PROMPT_HEAD| + |message| + |PROMPT_TAIL|
    ensures p[..|PROMPT_HEAD|] == PROMPT_HEAD
    ensures p[|PROMPT_HEAD|..|PROMPT_HEAD| + |message|] == message
    ensures p[|PROMPT_HEAD| + |message|..] == PROMPT_TAIL
  {
    PROMPT_HEAD + message + PROMPT_TAIL
  }

  /** Reads the quoted message back out of a prompt. */
  function PromptedMessage(p: string): (r: Option<string>)
    ensures r.Some? ==> |r.value| + |PROMPT_HEAD| + |PROMPT_TAIL| == |p|
  {
    var n := |PROMPT_HEAD| + |PROMPT_TAIL|;
    if n <= |p| && p[..|PROMPT_HEAD|] == PROMPT_HEAD && p[|p| - |PROMPT_TAIL|..] == PROMPT_TAIL then
      Some(p[|PROMPT_HEAD|..|p| - |PROMPT_TAIL|])
    else
      None
  }

  /** What the model call gives back: the texts of its choices, or an
      exception. */
  datatype Completion = Returned(choices: seq<string>) | Raised

  /** The text of the first choice, stripped; the apology when the call
      raised or `output["choices"][0]` does not exist. */
  function ModelText(c: Completion): (r: string)
    ensures c.Raised? || c.choices == [] ==> r == APOLOGY
    ensures c.Returned? && c.choices != [] ==> IsStripOf(r, c.choices[0])
  {
    match c
    case Returned(choices) => if choices == [] then APOLOGY else Strip(choices[0])
    case Raised => APOLOGY
  }

  /** The record `{"response": text}`. */
  function Respond(text: string): (r: map<string, string>)
    ensures r.Keys == {"response"} && r["response"] == text
  {
    map["response" := text]
  }

  /** The `/chat` handler. */
  function Chat(message: string, websiteData: map<string, string>, lower: CaseMap,
                generate: string -> Completion): (r: map<string, string>)
    ensures r.Keys == {"response"}
  {
    match Decide(message, lower)
    case Matched(i) => Respond(AnswerText(RULES[i].answer, websiteData))
    case Fallback => Respond(ModelText(generate(Prompt(message))))
  }
}

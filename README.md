# Nova Tech Solutions chatbot: reply routing

This project models how the `/chat` endpoint of the Nova Tech Solutions
chatbot backend picks its reply. It covers the handler `chat` in
`app/main.py`. The handler works in four steps:

1. It lower-cases the incoming message and then strips the whitespace at both
   ends. The lower-casing comes first (`message.lower().strip()`), and the
   model keeps that order.
2. It tests an ordered table of ten keyword rules against the result. A rule
   fires when one of its keywords occurs anywhere in the text as a plain
   substring.
3. The first rule that fires gives a canned reply. The contact rule instead
   looks up `contact_info` in the scraped site data and falls back to a
   default sentence.
4. When no rule fires, the handler builds a prompt from the original message
   and asks the language model. The reply is the stripped text of the model's
   first choice, or a fixed apology when the call raises.

Every reply is a record with the single key `response`.

The project has three modules, plus `Wrappers`, which holds `Option`:

- `PyStr` holds the Python string built-ins the handler uses:
  - `str.isspace` with the exact set of whitespace code points;
  - `str.strip()`, checked against a reference definition of stripping;
  - `str.lower()`, with the character mapping as a parameter;
  - the substring test `kw in s`, checked against an existential reference.
- `Chatbot` holds the rule table, the prompt template, the handling of the
  model's result and the handler `Chat` itself.
- `ChatbotProperties` holds the lemmas about the routing.

Two inputs of the handler are parameters of `Chat`:

- `websiteData` is the map built at start-up by the scraping module.
- `generate` stands for the whole model call. It maps a prompt to a
  `Completion`: either the texts of the returned choices, or `Raised`.

The case mapping of `str.lower()` is a parameter `lower: char -> string`,
because some characters map to several. The lemmas that need it require
`ValidCaseMap(lower)`: ASCII capitals become small letters, and all other
ASCII characters and all whitespace stay as they are. Python's mapping
satisfies this.

## Model

| member | source | states |
|---|---|---|
| `PyStr.IsSpace` | app/main.py:68 | the characters `str.strip()` removes: the code points for which Python's `str.isspace()` holds (U+0009-000D, U+001C-0020, U+0085, U+00A0, U+1680, U+2000-200A, U+2028, U+2029, U+202F, U+205F, U+3000); no contract, its properties are the `Strip` lemmas |
| `PyStr.Strip` | app/main.py:68 | the result is the stripped form of the input: it is a contiguous piece of it, only whitespace lies before and after it, and it neither starts nor ends with whitespace |
| `PyStr.StripOfUnique` | app/main.py:68 | a string has only one stripped form, so the reference definition determines `strip()` |
| `PyStr.StripIgnoresSurroundingSpace` | app/main.py:68 | extra whitespace before or after a string does not change its stripped form |
| `PyStr.StripAtEmbedded` | app/main.py:68 | the stripped part of a string, shifted by the added leading whitespace, is the stripped part once whitespace is added around the string |
| `PyStr.StripIdempotent` | app/main.py:68 | stripping twice gives the same as stripping once |
| `PyStr.SpaceRunEnd` | app/main.py:68 | scanning forward from an offset passes over whitespace only and stops at the end or at the first non-whitespace character |
| `PyStr.SpaceRunStart` | app/main.py:68 | scanning back from an offset, no further than a bound, passes over whitespace only and stops at the bound or just after a non-whitespace character |
| `PyStr.Lower` | app/main.py:68 | `str.lower()` as the concatenation of the case mapping of each character; no contract, its properties are the four `Lower` lemmas below |
| `PyStr.LowerAppend` | app/main.py:68 | lower-casing a concatenation gives the concatenation of the lower-cased parts |
| `PyStr.LowerAscii` | app/main.py:68 | on ASCII text, a valid case mapping lower-cases exactly as the ASCII reference does |
| `PyStr.LowerSpace` | app/main.py:68 | lower-casing leaves whitespace unchanged |
| `PyStr.LowerPointwise` | app/main.py:68 | two strings whose characters lower-case alike, position by position, lower-case to the same string |
| `PyStr.AsciiLower` | app/main.py:68 | the ASCII reference keeps the length and maps each capital letter to its small letter |
| `PyStr.Occurs` | app/main.py:75 | `kw in s` holds exactly when `kw` appears in `s` at some offset |
| `PyStr.OccursInMiddle` | app/main.py:75 | a string occurs in any string built around it |
| `PyStr.OccursSurvivesStrip` | app/main.py:68-75 | a keyword with no whitespace at its ends that occurs in a string still occurs once the string is stripped |
| `PyStr.OccursInside` | app/main.py:68-75 | an occurrence of such a keyword lies inside the stripped part, at the offset shifted by the removed prefix |
| `PyStr.StripKeepsInner` | app/main.py:68 | a stretch that starts and ends with non-whitespace lies within the stripped part, character for character |
| `Chatbot.RULES` | app/main.py:72-99 | the keyword table in the order the handler tests it: greeting, services, web development, AI integration, mobile app, UI/UX, cloud, digital marketing, mission/about, contact/support; a constant, `RulesHaveKeywords` states the shape of its keywords |
| `Chatbot.AnswerText` | app/main.py:73-100 | the ten canned replies, word for word, and for the contact answer `websiteData.get("contact_info", "You can reach us via our Contact page.")`; no contract, `ContactLookup` states the lookup |
| `Chatbot.AnyOccurs` | app/main.py:72 | `any(word in s for word in words)` holds exactly when one of the words occurs in `s` |
| `Chatbot.FirstFiring` | app/main.py:72-100 | a matched rule fires and no earlier rule fires; the fallback is chosen exactly when no rule fires |
| `Chatbot.Normalise` | app/main.py:68 | the text that is matched is the stripped form of the lower-cased message |
| `Chatbot.Decide` | app/main.py:72-101 | the `if ... return` chain: the first rule of the table that fires on the normalised message, or the fallback; no contract, `FirstMatchWins` and `FallbackIffNoKeyword` characterise it |
| `Chatbot.Prompt` | app/main.py:103-109 | the prompt is the fixed head, then the original message, then the fixed tail, with the message at a known position |
| `Chatbot.PromptedMessage` | app/main.py:103-109 | reading a message back out of a prompt gives a text exactly as long as the prompt minus the template |
| `Chatbot.ModelText` | app/main.py:111-124 | an exception, or a result with no first choice, gives exactly the apology; otherwise the reply is the stripped text of the first choice |
| `Chatbot.Respond` | app/main.py:73 | the record has `response` as its only key, holding the given text |
| `Chatbot.Chat` | app/main.py:67-124 | whatever the branch, the record returned has `response` as its only key |
| `ChatbotProperties.RulesHaveKeywords` | app/main.py:72-99 | every keyword in the table is non-empty lower-case ASCII, with no whitespace at either end |
| `ChatbotProperties.KeywordIsLowerCase` | app/main.py:68-72 | lower-casing leaves every such keyword unchanged |
| `ChatbotProperties.NormaliseIgnoresSurroundingSpace` | app/main.py:68 | whitespace added before or after a message changes neither its normal form nor the rule that answers it |
| `ChatbotProperties.LowerAround` | app/main.py:68 | lower-casing a message of three parts lower-cases each part in place |
| `ChatbotProperties.NormaliseIgnoresAsciiCase` | app/main.py:68 | changing the case of ASCII letters changes neither the normal form nor the rule that answers |
| `ChatbotProperties.KeywordMatchesInsideWords` | app/main.py:72-100 | whatever text surrounds a keyword of rule `i`, even inside a word, some rule answers, and it is rule `i` or an earlier one |
| `ChatbotProperties.KeywordOccursAfterLowering` | app/main.py:68-72 | a keyword written anywhere in a message occurs in the message's normal form |
| `ChatbotProperties.KeywordFiresNoLater` | app/main.py:72-100 | for any rule table, if a keyword of rule `i` occurs then a rule fires, and it is rule `i` or an earlier one |
| `ChatbotProperties.GreetingInsideWords` | app/main.py:72-73 | any message containing "hi", even inside a word, is answered by the greeting rule |
| `ChatbotProperties.WhichCloudPlanIsGreeted` | app/main.py:72-73 | "which cloud plan" gets the greeting reply, not the cloud reply |
| `ChatbotProperties.FirstFiringIs` | app/main.py:72-100 | for any rule table, rule `i` is the first to fire if and only if it fires and no earlier rule does |
| `ChatbotProperties.NoneFiresIff` | app/main.py:72-102 | for any rule table, no rule fires if and only if no keyword of any rule occurs |
| `ChatbotProperties.FirstMatchWins` | app/main.py:72-100 | rule `i` answers a message if and only if it fires on the normal form and no earlier rule does |
| `ChatbotProperties.ChatMatched` | app/main.py:72-100 | when rule `i` fires on the normalised message and no earlier rule does, the response is rule `i`'s canned reply |
| `ChatbotProperties.GreetingWins` | app/main.py:72-73 | if "hello", "hi" or "hey" occurs, the greeting rule answers, whatever other keywords occur |
| `ChatbotProperties.ServicesWins` | app/main.py:72-76 | if "services" occurs and no greeting word does, the services rule answers, whatever later keywords such as "cloud" occur |
| `ChatbotProperties.ContactWins` | app/main.py:72-100 | if "contact" or "support" occurs and no earlier rule fires, the contact rule answers |
| `ChatbotProperties.GreetingFirst` | app/main.py:72-73 | a greeting word in the normalised message makes the response the greeting text |
| `ChatbotProperties.ServicesBeforeLaterRules` | app/main.py:72-76 | "services" without a greeting word makes the response the services text, even when "cloud" or "contact" occurs too |
| `ChatbotProperties.ContactLookup` | app/main.py:99-100 | the contact rule responds with `websiteData["contact_info"]` when that key exists, and otherwise with "You can reach us via our Contact page." |
| `ChatbotProperties.FallbackIffNoKeyword` | app/main.py:72-111 | the handler falls back to the model if and only if no keyword of any rule occurs in the normalised message |
| `ChatbotProperties.RuleReplyIgnoresModel` | app/main.py:72-100 | when a rule answers, the response does not depend on the model |
| `ChatbotProperties.FallbackAsksModel` | app/main.py:72-124 | when no keyword of any rule occurs in the normalised message, the response is the processed outcome of the model call on the prompt built from the original message |
| `ChatbotProperties.ModelConsultedIffNoRuleFires` | app/main.py:72-124 | a model that answers "ok" and a model that raises lead to different responses if and only if no rule fires |
| `ChatbotProperties.ModelTextOk` | app/main.py:118-124 | a model answer "ok" is passed on as "ok", which differs from the apology given when the call raises |
| `ChatbotProperties.PromptQuotesMessage` | app/main.py:107-108 | the prompt holds `User: "`, then the raw, un-normalised message, then `"` and a line `Assistant:` |
| `ChatbotProperties.PromptRoundTrip` | app/main.py:103-109 | the message can be read back out of its prompt unchanged |
| `ChatbotProperties.PromptedMessageIsSource` | app/main.py:103-109 | a prompt that a message can be read out of is exactly the prompt built from that message |

## Left out

- `download_model` and its call at start-up (app/main.py:28-42) are left out: they are a network download and file writes.
- Loading the Llama model and running it (app/main.py:45-49 and 112-117) are left out: they are a foreign inference library. The call is the parameter `generate`. The sampling settings it receives are not modelled: temperature 0.2, at most 180 tokens, and the stop strings `User:` and `Assistant:`.
- `get_website_content` (app/main.py:7 and 54) is left out, because the scraping module that defines it is not part of this model. Its result is the parameter `websiteData`.
- `websiteData` is a map from strings to strings. A non-string value under `contact_info` is not modelled.
- A model result of the wrong shape is not modelled separately. This covers a missing `choices` or `text` key and a text that is not a string. Inside the `try` these raise, and the handler then gives the apology, so they behave like `Raised`. An empty `choices` list is modelled; it also gives the apology.
- The FastAPI application, CORS set-up, route decorators, `read_root`, the request schema and the uvicorn start-up (app/main.py:10-19, 57-63 and 126-130) are left out: they are framework and server plumbing.
- The `print` logging (app/main.py:69, 119 and 123) is left out, because it is output to the console. A `print` that raises is not modelled either. At app/main.py:119 it is inside the `try`, so a failing `print` there turns the reply into the apology although the model answered. At app/main.py:69 it is outside the `try`, so a failing `print` there makes the request fail instead of answering.
- Strings are Dafny strings, which hold Unicode scalar values only. A Python `str` can also hold the lone surrogates U+D800-U+DFFF; messages or model texts containing them are not modelled.
- `PyStr.Lower` is modelled character by character, so the context-dependent rule of `str.lower()` for a final capital sigma is not modelled. That rule never touches ASCII text or whitespace, which is all the properties rely on.
- `Chatbot.Chat`: the lemmas about a reply state its `response` field, not whole-record equality. `Chat` itself ensures that `response` is the only key, so the two are equivalent.

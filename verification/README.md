# Résumé text extraction, modelled in Dafny

The system reads the text of an uploaded résumé and turns it into structured fields.
This project models the deterministic part of that pipeline: the regular expressions and
loops that pick experience and project entries out of plain text. It covers the PDF/DOCX
text clean-up, the controller's pre-processing and the shape of its analysis result, and
four parsers:

- `WorkExp` finds the EXPERIENCE section, drops the lines that mention "intern" and
  reads structured ("Jan 2020 - Present Title, Company") and bullet ("• a, b, c")
  entries.
- `ProjectExp` trims the text to its first heading, finds the PROJECTS section (or falls
  back to the last 70 % of the lines), splits it into items, then cleans, deduplicates,
  filters and classifies them.
- `ProjectExperience` splits a projects text at blank lines and before every '•'. It
  gives each piece a name, technologies, a description, a duration and a role.
- `ExperienceParser` splits an experience text before every year range ("2019 - 2021").
  It gives each piece a title, a company, a duration, a description and achievements.

Text is a byte string: a Dafny `string` whose characters stand for bytes, because the
patterns run without the `u` flag. Every pattern is written out as a scanner that follows
the backtracking order of PCRE:
- greedy quantifiers give bytes back one at a time;
- lazy ones grow one at a time;
- alternatives are tried in order;
- `\s`, `\w` and `\b` are ASCII classes;
- the `i` flag folds ASCII case only;
- `^` and `$` follow the `m` flag.

Each global replacement and each split resumes where the previous match ended. After an
empty match, PHP retries at the same offset for a non-empty match and then moves one byte
on; the models do the same.

The modules are:
- `PhpText`: PHP string built-ins (`trim`, `strtolower`, `explode`/`implode` on "\n", `preg_replace('/\s+/', ' ', …)`) and their laws.
- `Patterns`: the year-range pattern, section captures, vocabulary matching, `array_unique` and the generic `foreach` accumulator.
- `PdfParser`, `ResumeController`, `WorkExp`, `ProjectExp`, `ProjectExperience` and `ExperienceParser`: one module per source file.

The loops of the source (`parseWorkEntries`, `parseBulletPointProjects`,
`cleanProjectsList`, `normalizeProjects`, and the two static `parse` methods) are
methods. Each is proved equal to a specification function, and the properties are
proved about that function.

Facts about the parsers that show up as proved properties:

- `ProjectExperience::parse` splits with `/\n\s*\n|(?=•)/`. A '•' occurs in a piece only
  at its start, and no piece holds a blank-line run.
- `ExperienceParser::extractJobTitle` uses `^(.*?)\s*(?:at|@|\||\b)\s*(.*?)$`. The `\b`
  branch matches at the first word byte of a line, so a piece that starts with a year
  range always has the title "".
- `ExperienceParser::cleanDescription` deletes every match of that pattern. Every line
  holding a letter, a digit, '_', '@' or '|' matches it, so the description can only keep
  lines made of other symbols.
- `extractAchievements` treats the '-' inside "2020 - 2021" as a bullet marker.

## Model

| member | source | states |
|---|---|---|
| PdfParser.CleanText | app/Services/PdfParserService.php:47-50 | the result is trimmed, single-spaced, starts and ends on a non-whitespace byte and is no longer than the input |
| PdfParser.CleanTextIdempotent | app/Services/PdfParserService.php:47-50 | cleaning a cleaned text changes nothing |
| PdfParser.CleanTextKeepsNonSpace | app/Services/PdfParserService.php:47-50 | the non-whitespace bytes are kept in order, except NUL bytes at either end, which `trim` strips |
| PdfParser.CleanTextBlank | app/Services/PdfParserService.php:47-50 | an all-whitespace text cleans to "" |
| PdfParser.CleanTextAroundRun | app/Services/PdfParserService.php:47-50 | a whitespace run between two stretches with non-whitespace, non-NUL ends becomes one space, and each stretch is cleaned on its own |
| ResumeController.KeepMeaningful | app/Http/Controllers/ResumeController.php:131 | only word bytes, whitespace and `- . , : ; @ /` remain, in a result no longer than the input, and a text whose only whitespace is the space keeps that property |
| ResumeController.KeepMeaningfulCounts | app/Http/Controllers/ResumeController.php:131 | every kept byte occurs in the result exactly as often as in the input |
| ResumeController.KeepMeaningfulInOrder | app/Http/Controllers/ResumeController.php:131 | the result is a subsequence of the input |
| ResumeController.KeepMeaningfulOfKept | app/Http/Controllers/ResumeController.php:131 | a text made only of kept bytes is unchanged |
| ResumeController.KeepMeaningfulNonSpace | app/Http/Controllers/ResumeController.php:128-131 | dropping symbols commutes with dropping whitespace, because every whitespace byte is kept |
| ResumeController.CleanResumeText | app/Http/Controllers/ResumeController.php:125-134 | the result holds only kept bytes, its only whitespace byte is the space, it starts and ends on non-whitespace and is no longer than the input |
| ResumeController.CleanResumeTextKeepsText | app/Http/Controllers/ResumeController.php:125-134 | apart from whitespace, the cleaned text is the input with its symbols removed: every kept non-whitespace byte survives, in order |
| ResumeController.TrimKeepsBytes | app/Http/Controllers/ResumeController.php:133 | trimming a text of kept bytes whose only whitespace is the space keeps both properties |
| ResumeController.KeepMeaningfulAppend | app/Http/Controllers/ResumeController.php:131 | dropping symbols distributes over concatenation |
| ResumeController.KeepMeaningfulEnds | app/Http/Controllers/ResumeController.php:131 | kept bytes at the ends stay at the ends |
| ResumeController.KeptEndsClean | app/Http/Controllers/ResumeController.php:125-134 | a text with kept non-whitespace ends cleans to its collapsed text with the symbols dropped, and keeps those ends |
| ResumeController.CleanResumeTextAroundRun | app/Http/Controllers/ResumeController.php:125-134 | a whitespace run between two stretches with kept non-whitespace ends becomes one space, and each stretch is cleaned on its own |
| ResumeController.CleanResumeTextBlank | app/Http/Controllers/ResumeController.php:125-134 | an all-whitespace text cleans to "" |
| ResumeController.CleanResumeTextSymbolBetweenSpaces | app/Http/Controllers/ResumeController.php:128-133 | "a # b" becomes "a  b": the symbol is deleted after the whitespace was collapsed, so two spaces remain |
| ResumeController.AnalyzeResumeText | app/Http/Controllers/ResumeController.php:94-120 | the error record comes back exactly when one of the five service calls throws, carrying empty lists, score 0 and the message of the first failure; otherwise each field is the call's result, or the empty default when the call returned null |
| PhpText.LowerStr | app/Services/ProjectExp.php:143 | `strtolower`: same length, every byte ASCII-lower-cased |
| PhpText.Ucfirst | app/Services/ProjectExp.php:159 | `ucfirst`: the first byte upper-cased, the rest unchanged |
| PhpText.MatchCILower | app/Services/ProjectExp.php:143-146 | a case-insensitive match is a match of the lower-cased text |
| PhpText.ContainsLower | app/Services/ProjectExp.php:146 | `str_contains(strtolower(x), w)` for a lower-case `w` is a case-insensitive search of `x` |
| PhpText.Trim | app/Services/ProjectExperience.php:33 | `trim`: no trim byte at either end, never longer |
| PhpText.TrimIsInfix | app/Services/ProjectExperience.php:33 | the trimmed text is a contiguous part of the text |
| PhpText.TrimIdempotent | app/Services/ProjectExperience.php:33 | trimming twice is trimming once |
| PhpText.TrimKeepsAbsence | app/Services/WorkExp.php:18 | trimming cannot create an occurrence of a word |
| PhpText.Lines | app/Services/ProjectExperience.php:32 | `explode("\n")`: at least one piece, none holding "\n", the first being the text up to the first "\n" |
| PhpText.JoinLinesOfLines | app/Services/ProjectExperience.php:59 | `implode("\n", explode("\n", s))` is `s` |
| PhpText.RestLines | app/Services/ProjectExperience.php:55-59 | the lines after the first, joined, are the text after the first "\n" |
| PhpText.Collapse | app/Services/PdfParserService.php:49 | `preg_replace('/\s+/', ' ')`: single-spaced, never longer, empty exactly when the input is |
| PhpText.NonSpaceCollapse | app/Services/PdfParserService.php:49 | collapsing keeps the non-whitespace bytes in order |
| PhpText.CollapseOfSingleSpaced | app/Services/PdfParserService.php:49 | a single-spaced text is a fixpoint of collapsing |
| PhpText.CollapseTrimFixpoint | app/Services/PdfParserService.php:49 | a trimmed single-spaced text is a fixpoint of collapse-then-trim |
| PhpText.SkipSpaceAppend | app/Services/PdfParserService.php:49 | `\s+` stops at the same byte in a longer text when the run ends inside the first part or the second part does not start with whitespace |
| PhpText.CollapseAppend | app/Services/PdfParserService.php:49 | collapsing a concatenation that joins no two whitespace runs collapses each part |
| PhpText.CollapseAroundRun | app/Services/PdfParserService.php:49 | a whitespace run between two stretches that do not touch it becomes exactly one space |
| PhpText.CollapseLast | app/Services/PdfParserService.php:49 | a last byte that is not whitespace stays last |
| PhpText.CollapseSolidEnds | app/Services/PdfParserService.php:49-50 | a text with ends that neither `\s` nor `trim` touches keeps those ends, so `trim` leaves its collapse unchanged |
| PhpText.NonSpaceTrim | app/Services/PdfParserService.php:49 | for a text whose only whitespace is the space, trimming removes from its non-whitespace bytes only the NUL bytes at either end |
| Patterns.YearRangeEnd | app/Services/ExperienceParser.php:48 | `\d{4}\s*[-–]\s*(?:present\|\d{4})` at a position: four digits, a whitespace or dash byte after them, at least nine bytes, ending on a word byte |
| Patterns.FirstYearRange | app/Services/ExperienceParser.php:48 | the leftmost year range, no range starting before it, and none at all when it finds nothing |
| Patterns.YearRangeText | app/Services/ProjectExperience.php:62-68 | `extractDuration`: "" exactly when there is no year range, otherwise the leftmost range, which starts with four digits |
| Patterns.FirstMatchCI | app/Services/WorkExp.php:17 | the leftmost case-insensitive occurrence of a word, none earlier |
| Patterns.LazyStop | app/Services/WorkExp.php:17 | the lazy capture stops at the first position where a stop word or the end of the text follows |
| Patterns.SectionCapture | app/Services/ProjectExp.php:26 | the section pattern matches exactly when its heading occurs with something after it; the capture starts after the heading and optional ':' and ends at the first stop |
| Patterns.VocabAtLower | app/Services/ProjectExperience.php:40 | a vocabulary match at a position lower-cases to one of the alternatives |
| Patterns.VocabHits | app/Services/ProjectExperience.php:40 | every hit lower-cases to a vocabulary word |
| Patterns.FirstHit | app/Services/ProjectExperience.php:40 | the leftmost position that starts a word-bounded vocabulary match, none before it, and none at all when it finds nothing |
| Patterns.VocabHitsHead | app/Services/ProjectExperience.php:40 | `preg_match_all` lists the leftmost match first and then the matches after its end; with no match it lists nothing |
| Patterns.VocabHitsComplete | app/Services/ProjectExperience.php:40 | every match that no earlier match overlaps is listed |
| Patterns.VocabHitsNone | app/Services/ProjectExperience.php:40 | there is no hit exactly when no position has a word boundary followed by a vocabulary word |
| Patterns.LowerAll | app/Services/ProjectExperience.php:47 | `array_map('strtolower')`: each item lower-cased, order kept |
| Patterns.Unique | app/Services/ProjectExperience.php:46 | `array_unique` (values): no duplicates, the same set of values as the input, and the values in the order of their first occurrence |
| Patterns.UniqueIsDetermined | app/Services/ProjectExperience.php:46 | any duplicate-free list with the same values in first-occurrence order is the result of `Unique` |
| Patterns.LineRest | app/Services/ExperienceParser.php:68 | `\s*(.+?)(?=\n\|$)` after a marker: only whitespace before the capture; a non-empty capture without "\n" that ends at a "\n" or the end; or nothing when only newlines follow |
| Patterns.AppendEach | app/Services/WorkExp.php:34-38 | a `foreach` that appends each item's contribution gives the accumulator plus their concatenation |
| Patterns.GatherOnePerItem | app/Services/ProjectExperience.php:14-24 | a loop that appends one record per kept item gives the records of the kept items, in order |
| WorkExp.ExperienceSection | app/Services/WorkExp.php:17-18 | the section is found exactly when "experience" occurs with text after it, and the capture is trimmed |
| WorkExp.DropInternLines | app/Services/WorkExp.php:18 | deleting the "intern" lines never lengthens the text |
| WorkExp.DropInternLinesClean | app/Services/WorkExp.php:18 | afterwards no "intern" is left, in any case |
| WorkExp.DropInternLinesKeeps | app/Services/WorkExp.php:18 | a text without "intern" is left unchanged |
| WorkExp.DropInternLinesAppend | app/Services/WorkExp.php:18 | the deletion works line by line: on a text split after a "\n", it is the deletion on each part, joined |
| WorkExp.DropInternLinesOneLine | app/Services/WorkExp.php:18 | a single line, with or without its "\n", is deleted exactly when it mentions "intern" in any case, and kept whole otherwise |
| WorkExp.StructuredMatchesFree | app/Services/WorkExp.php:33 | a word the text does not contain, in any case, is in no capture of any structured match |
| WorkExp.LazyTitleStops | app/Services/WorkExp.php:33 | the lazy title stops at or before the first comma of its line, only whitespace lies between, and the comma tail read from there is the same |
| WorkExp.LazyTitleEndsOnText | app/Services/WorkExp.php:33 | a title never ends on whitespace |
| WorkExp.StructuredExampleMatch | app/Services/WorkExp.php:32-33 | "Jan 2021 - Present Dev, Acme" is one match with duration "Jan 2021 - Present", title "Dev" and company "Acme" |
| WorkExp.StructuredMatchesNone | app/Services/WorkExp.php:33 | a text with no two letters in a row has no structured match |
| WorkExp.BulletMatchesFree | app/Services/WorkExp.php:42 | a word the text does not contain, in any case, is in no capture of any bullet match |
| WorkExp.BulletMatchesNone | app/Services/WorkExp.php:42 | a text without the first byte of '•' has no bullet match |
| WorkExp.BulletExampleMatch | app/Services/WorkExp.php:42 | "•a, b, c" is one bullet match with groups "a", "b", "c" |
| WorkExp.CreateWorkEntry | app/Services/WorkExp.php:53-62 | the three fields are trimmed and no longer than given; the description is "" and the type "work" |
| WorkExp.ParseWorkEntries | app/Services/WorkExp.php:28-51 | the two loops give the structured entries, then the bullet entries; each has description "" and type "work" |
| WorkExp.EntriesShape | app/Services/WorkExp.php:28-51 | every entry has description "" and type "work", and when the text does not contain a word no title, company or duration contains it |
| WorkExp.BulletExampleEntry | app/Services/WorkExp.php:42-48 | "•a, b, c" gives exactly one entry: title "a", company "b", duration "c" |
| WorkExp.WorkText | app/Services/WorkExp.php:17-18 | the text handed to the entry parser never mentions "intern" |
| WorkExp.GetWorkExperience | app/Services/WorkExp.php:13-26 | the entries of the filtered section; there are none when "experience" never occurs or the filtered section is empty |
| WorkExp.WorkExperienceNoIntern | app/Services/WorkExp.php:13-26 | no entry's title, company or duration mentions "intern" |
| WorkExp.NormalizeWork | app/Services/WorkExp.php:64-75 | one record per entry, with its company, description and duration; technologies "Not specified" and type "work" |
| WorkExp.Analyze | app/Services/WorkExp.php:7-11 | the normalized records of the parsed entries; each has description "", technologies "Not specified", type "work" and no "intern" in company or duration |
| ProjectExp.FirstHeading | app/Services/ProjectExp.php:20 | the leftmost heading in a range, none before it |
| ProjectExp.RemoveIrrelevantSections | app/Services/ProjectExp.php:18-21 | the result is a suffix of the text that loses at most the first line and starts with a heading when anything was cut; a first line without a heading leaves the text unchanged |
| ProjectExp.RemoveIrrelevantSectionsDropsLeadingHeading | app/Services/ProjectExp.php:20 | when the first line starts with a heading and holds a second one, the replacement cuts at least one byte and at most up to the second heading, while the corrected trim changes nothing |
| ProjectExp.HeadingExampleDropsHeading | app/Services/ProjectExp.php:20 | "EDUCATION SKILLS" is changed by the replacement; the corrected trim leaves it unchanged |
| ProjectExp.RemoveLeadingBoilerplate | app/Services/ProjectExp.php:18-21 | the corrected trim returns a suffix that loses only part of the first line, with no heading in the part it cuts and a heading at the start of what remains |
| ProjectExp.RemoveLeadingBoilerplateIdempotent | app/Services/ProjectExp.php:18-21 | the corrected trim applied twice is applied once |
| ProjectExp.SectionText | app/Services/ProjectExp.php:31-33 | a section capture is accepted exactly when it does not mention internship, employment or work experience, and it comes back trimmed |
| ProjectExp.ExtractProjectsSection | app/Services/ProjectExp.php:23-37 | the PROJECTS pattern wins when accepted, otherwise the PROJECT EXPERIENCE one; any result is trimmed and accepted |
| ProjectExp.FallbackExtractProjects | app/Services/ProjectExp.php:39-44 | the result is a suffix of the text, and the whole text when it has fewer than four lines |
| ProjectExp.FallbackDropsLeadingLines | app/Services/ProjectExp.php:41-43 | the fallback's lines are exactly the text's lines after the first floor(30 %) |
| ProjectExp.LinesOfJoinLines | app/Services/ProjectExp.php:41-43 | splitting joined lines gives the lines back |
| ProjectExp.ProjectsText | app/Services/ProjectExp.php:10 | an accepted section is used as is; otherwise the fallback, a suffix of the text |
| ProjectExp.EraseContactLinesKeeps | app/Services/ProjectExp.php:55 | text with no contact line is left unchanged |
| ProjectExp.EraseContactLinesCopies | app/Services/ProjectExp.php:55 | a stretch where no contact line starts is copied unchanged |
| ProjectExp.NonContactLineKept | app/Services/ProjectExp.php:55 | a line at whose start no contact line matches is kept whole |
| ProjectExp.ContactLineErased | app/Services/ProjectExp.php:55 | a line that starts, after blanks, with a contact keyword followed by text is erased up to its "\n", which stays |
| ProjectExp.EraseContactLinesExample | app/Services/ProjectExp.php:55 | "Email: x\nA" loses the contact line but keeps its newline |
| ProjectExp.SplitEntries | app/Services/ProjectExp.php:56 | the split keeps no empty piece |
| ProjectExp.SplitEntriesFromJoin | app/Services/ProjectExp.php:56 | from any scan position, the pieces joined are the current piece plus the rest of the text with every delimiter removed |
| ProjectExp.SplitEntriesJoin | app/Services/ProjectExp.php:56 | the items joined are the text with its delimiters removed: the split loses nothing else |
| ProjectExp.SplitEntriesFromSlices | app/Services/ProjectExp.php:56 | from any scan position, each piece is a delimiter-free stretch of the text that starts where the scan began or right after a delimiter, and ends at a delimiter or at the end |
| ProjectExp.SplitEntriesSlices | app/Services/ProjectExp.php:56 | each item is a delimiter-free stretch of the text that starts at the beginning or right after a delimiter, and ends at a delimiter or at the end |
| ProjectExp.SplitEntriesNoDelimiter | app/Services/ProjectExp.php:56 | text without a delimiter is one item, or none when empty |
| ProjectExp.CreateProject | app/Services/ProjectExp.php:78-86 | trimmed name and description, type "project", and a trimmed github field only for a truthy link |
| ProjectExp.EntryCandidate | app/Services/ProjectExp.php:58-75 | an item yields no candidate exactly when it trims to an empty value or a bare link; otherwise a project with a non-empty trimmed name, and a github link only with an empty description |
| ProjectExp.GithubLinkTrimmed | app/Services/ProjectExp.php:65-66 | a GitHub link that runs to the end of a trimmed item is itself trimmed and truthy |
| ProjectExp.EntryCandidateFields | app/Services/ProjectExp.php:59-75 | "name link" gives that name, an empty description and the link; else "name: text" or "name - text" gives that name and text; else the whole trimmed item is the name |
| ProjectExp.CandidatesShape | app/Services/ProjectExp.php:58-75 | at most one candidate per item, each of type "project" with a non-empty trimmed name |
| ProjectExp.ParseBulletPointProjects | app/Services/ProjectExp.php:53-76 | the by-reference list grows by the candidates of the items, in order |
| ProjectExp.CleanDescription | app/Services/ProjectExp.php:124-131 | the result is trimmed and never longer |
| ProjectExp.EraseProfileLinksCopies | app/Services/ProjectExp.php:125-129 | a stretch where no profile link starts is copied unchanged |
| ProjectExp.CleanDescriptionDropsLink | app/Services/ProjectExp.php:124-131 | when the only profile link runs from p to e, the result is the trimmed join of the text before p and after e |
| ProjectExp.CleanDescriptionWithoutGithub | app/Services/ProjectExp.php:124-131 | a description that never mentions "github.com/" is only trimmed |
| ProjectExp.CleanDescriptionOfLink | app/Services/ProjectExp.php:124-131 | a description that is one profile link becomes "" |
| ProjectExp.CleanProjectsList | app/Services/ProjectExp.php:103-122 | the loop keeps what the deduplication function keeps |
| ProjectExp.CleanFromShape | app/Services/ProjectExp.php:108-119 | at most one entry per candidate; none blank, none with a key seen before, no two with the same key |
| ProjectExp.CleanFromComplete | app/Services/ProjectExp.php:108-119 | every non-blank candidate's key ends up seen |
| ProjectExp.CleanFromKeepsFirst | app/Services/ProjectExp.php:115-118 | the first candidate with a given key is the one kept |
| ProjectExp.CleanFromInOrder | app/Services/ProjectExp.php:108-119 | the entries kept are a subsequence of all cleaned candidates |
| ProjectExp.ValidOnly | app/Services/ProjectExp.php:91 | exactly the valid projects, order kept |
| ProjectExp.ValidOnlyCounts | app/Services/ProjectExp.php:91 | every valid project is kept as many times as it occurs |
| ProjectExp.KeywordAtSpec | app/Services/ProjectExp.php:158 | the word of `(?:for\|at\|with)` at a position: 3, 2 or 4 exactly when "for", "at" or "with" is there in any case, 0 exactly when none is |
| ProjectExp.ForAtWithAtShape | app/Services/ProjectExp.php:158 | a match at a position is one of the three words, then whitespace up to the capture, which holds no whitespace or ',' and ends at the end, a whitespace byte or a ',' |
| ProjectExp.ForAtWithAtNone | app/Services/ProjectExp.php:158 | no match at a position exactly when no word is there, no whitespace follows it, or the whitespace runs to the end or to a ',' |
| ProjectExp.FirstTrueLeftmost | app/Services/ProjectExp.php:158 | the scan over start positions finds a position whenever one qualifies, and never one after it |
| ProjectExp.ForAtWithStartFound | app/Services/ProjectExp.php:158 | a match starts where the scan for the leftmost start stops |
| ProjectExp.ForAtWithStartLeftmost | app/Services/ProjectExp.php:158 | any match at or after the scan position means the scan finds one, there or before |
| ProjectExp.ForAtWithFrom | app/Services/ProjectExp.php:158 | `preg_match`: something is found exactly when the leftmost-start scan finds a start, and it is the capture of the match there; the capture follows whitespace and holds no whitespace or ',' |
| ProjectExp.ForAtWithFromLeftmost | app/Services/ProjectExp.php:158 | a match at any position means `preg_match` finds one that starts no later, so finding nothing means no position matches |
| ProjectExp.ForAtWithAtAlike | app/Services/ProjectExp.php:158 | texts with the same word at a position and whitespace and commas at the same places have the same match there |
| ProjectExp.ForAtWithAtOfLower | app/Services/ProjectExp.php:158 | the match at a position is the same in the lower-cased text |
| ProjectExp.ForAtWithStartOfLower | app/Services/ProjectExp.php:158 | the leftmost match starts at the same place in the lower-cased text |
| ProjectExp.ForAtWithFromOfLower | app/Services/ProjectExp.php:158 | with the `i` flag, matching the lower-cased name finds the same capture as matching the name as written |
| ProjectExp.NameTokenType | app/Services/ProjectExp.php:158-162 | "Personal Project" exactly when the pattern finds nothing; otherwise the capture with its first byte upper-cased |
| ProjectExp.TokenNotPersonal | app/Services/ProjectExp.php:158-162 | a capture can never read "Personal Project", so the two outcomes are told apart |
| ProjectExp.DetermineProjectType | app/Services/ProjectExp.php:141-163 | capstone, freelance, academic/university and hackathon, searched in any case in the fields as written, decide in that order; without them the type is "Personal Project" exactly when the pattern finds no for/at/with match in the name, otherwise the leftmost capture, lower-cased, first byte upper-cased |
| ProjectExp.NameTokenTypeShape | app/Services/ProjectExp.php:158-162 | on the lower-cased name, the token rule gives "Personal Project" exactly when the pattern finds no for/at/with match in the name as written, and otherwise the lower-cased leftmost capture, first byte upper-cased, a whitespace-preceded token of the name |
| ProjectExp.TechList | app/Services/ProjectExp.php:167-168 | distinct technology words that are exactly the lower-cased hits, in the order of their first occurrence, and empty exactly when there is no hit |
| ProjectExp.ExtractTechnologies | app/Services/ProjectExp.php:165-170 | "Various technologies" exactly when there is no hit, otherwise the comma-joined distinct lower-cased hits in first-occurrence order |
| ProjectExp.Records | app/Services/ProjectExp.php:93-100 | one record per project, in order, each built from its own project |
| ProjectExp.NormalizeProjects | app/Services/ProjectExp.php:88-101 | the records of the deduplicated, valid projects |
| ProjectExp.NormalizedShape | app/Services/ProjectExp.php:88-101 | no more records than candidates; each record has type "project", a non-empty company and comes from a valid deduplicated project |
| ProjectExp.CallMethod | app/Services/ProjectExp.php:46-51 | a call fails exactly when the class does not define the method |
| ProjectExp.AnalyzeAsWrittenAlwaysThrows | app/Services/ProjectExp.php:46-51 | `analyze` as written fails on every text, calling the undefined `parseHeaderBasedProjects` |
| ProjectExp.Analyze | app/Services/ProjectExp.php:7-16 | the corrected `analyze`: the normalized records of the bullet-point candidates of the projects text, where the heading trim is the corrected RemoveLeadingBoilerplate |
| ProjectExperience.BlankRunEnd | app/Services/ProjectExperience.php:10 | `\n\s*\n` at a position: a match is a whitespace run of at least two bytes; no match at a "\n" means no second "\n" before the next non-whitespace byte |
| ProjectExperience.PiecesKeepText | app/Services/ProjectExperience.php:10 | the pieces together hold every non-whitespace byte of the text, in order |
| ProjectExperience.PiecesWellSplit | app/Services/ProjectExperience.php:10 | no piece holds a '•' except at its start, and between any two "\n" of a piece lies a non-whitespace byte |
| ProjectExperience.PiecesBlankLineExample | app/Services/ProjectExperience.php:10 | "a\n\nb" splits into "a" and "b" |
| ProjectExperience.PiecesLeadingBulletExample | app/Services/ProjectExperience.php:10 | a text starting with '•' gives an empty first piece |
| ProjectExperience.ProjectName | app/Services/ProjectExperience.php:29-34 | the name is trimmed and holds no "\n" |
| ProjectExperience.ProjectNameIsFirstLine | app/Services/ProjectExperience.php:29-34 | the name is the text up to the first "\n", trimmed |
| ProjectExperience.ProjectDescription | app/Services/ProjectExperience.php:52-60 | the description is trimmed |
| ProjectExperience.ProjectDescriptionIsRest | app/Services/ProjectExperience.php:52-60 | with more than one line the description is the text after the first "\n", trimmed; otherwise the whole text, trimmed |
| ProjectExperience.RoleAt | app/Services/ProjectExperience.php:72 | a role match at a position starts on a word boundary with "as" or "role"; after blanks a ':' follows, then only whitespace up to the capture, which ends at a "\n" or the end |
| ProjectExperience.NoRoleInAt | app/Services/ProjectExperience.php:72 | where no role match starts in a range, none starts at any of its positions |
| ProjectExperience.RoleStart | app/Services/ProjectExperience.php:72 | the leftmost position that starts a role match, none before it, and none at all when it finds nothing |
| ProjectExperience.FirstRole | app/Services/ProjectExperience.php:72 | finds nothing exactly when no position starts a role match; a capture lies on one line |
| ProjectExperience.ProjectRole | app/Services/ProjectExperience.php:70-76 | the role is the trimmed capture of the leftmost role match, or "" when there is none; it holds no "\n" |
| ProjectExperience.ProjectRoleNeedsColon | app/Services/ProjectExperience.php:72 | a text without ':' has role "" |
| ProjectExperience.RoleExample | app/Services/ProjectExperience.php:72-73 | "Role: Lead" has role "Lead" |
| ProjectExperience.CapPhrasesShape | app/Services/ProjectExperience.php:44 | each capitalised match is capitalised ASCII words joined by single spaces |
| ProjectExperience.Technologies | app/Services/ProjectExperience.php:36-50 | no technology is listed twice; the list holds exactly the lower-cased vocabulary hits and the capitalised phrases, in the order of first occurrence in the hits followed by the phrases |
| ProjectExperience.TechnologiesShape | app/Services/ProjectExperience.php:36-50 | every technology is a vocabulary word or a capitalised phrase, and every vocabulary hit is listed lower-cased |
| ProjectExperience.TechnologiesExample | app/Services/ProjectExperience.php:40-49 | "React" gives "react" and "React" |
| ProjectExperience.MakeItem | app/Services/ProjectExperience.php:16-22 | the name and the role are trimmed and hold no "\n", the description is trimmed, no technology is repeated, and the duration is "" or starts with four digits |
| ProjectExperience.Parse | app/Services/ProjectExperience.php:7-27 | one record per piece that does not trim to "" or "0", in order |
| ExperienceParser.PiecesConcat | app/Services/ExperienceParser.php:11 | the pieces put together give the text back |
| ExperienceParser.RangesApart | app/Services/ExperienceParser.php:11 | two split points are at least five bytes apart |
| ExperienceParser.PiecesStartWithYearRange | app/Services/ExperienceParser.php:11 | every piece after the first starts with four digits and then a whitespace or dash byte |
| ExperienceParser.PiecesLeadingRange | app/Services/ExperienceParser.php:11 | a text starting with a year range gives an empty first piece |
| ExperienceParser.HeaderAt | app/Services/ExperienceParser.php:32 | a header match at a line start ends at a "\n" or the end of the text, at or after the end of its own line, and is never empty |
| ExperienceParser.JobTitle | app/Services/ExperienceParser.php:30-36 | the title is trimmed and holds no "\n" |
| ExperienceParser.JobTitleEmptyOnWordStart | app/Services/ExperienceParser.php:32-33 | a piece whose first non-whitespace byte is a word byte has title "" |
| ExperienceParser.JobTitleBulletExample | app/Services/ExperienceParser.php:32-33 | "• Dev" has title "•" |
| ExperienceParser.LazyCompany | app/Services/ExperienceParser.php:40 | the lazy `(.*?)` ends at the first position, not past a "\n", where a stop follows |
| ExperienceParser.CompanyAt | app/Services/ExperienceParser.php:40 | a company match starts on a word boundary with "at"; only whitespace lies between it and the capture, which ends where a stop first follows |
| ExperienceParser.NoCompanyInAt | app/Services/ExperienceParser.php:40 | where no company match starts in a range, none starts at any of its positions |
| ExperienceParser.CompanyStart | app/Services/ExperienceParser.php:40 | the leftmost position that starts a company match, none before it, and none at all when it finds nothing |
| ExperienceParser.FirstCompany | app/Services/ExperienceParser.php:40 | finds nothing exactly when no position starts a company match; a capture starts at least three bytes in, lies within one line, and only a text containing "at" has one |
| ExperienceParser.Company | app/Services/ExperienceParser.php:38-44 | the company is the trimmed capture of the leftmost match, or "" when there is none; it holds no "\n" and is "" unless the text contains "at" |
| ExperienceParser.CompanyExample | app/Services/ExperienceParser.php:40-41 | "at Bo (x)" has company "Bo" |
| ExperienceParser.ExperienceDescription | app/Services/ExperienceParser.php:54-62 | the description is trimmed and single-spaced |
| ExperienceParser.NoHeaderNoAnchor | app/Services/ExperienceParser.php:57 | a line where the header pattern fails holds no letter, digit, '_', '@' or '\|' |
| ExperienceParser.DropHeadersNoAnchor | app/Services/ExperienceParser.php:57 | after the header lines are deleted no such byte is left |
| ExperienceParser.DropYearRangesNoDigit | app/Services/ExperienceParser.php:59 | deleting year ranges leaves a text without digits unchanged |
| ExperienceParser.DescriptionHasNoAnchor | app/Services/ExperienceParser.php:54-62 | the description never holds a letter, a digit, '_', '@' or '\|' |
| ExperienceParser.ItemCapture | app/Services/ExperienceParser.php:68 | an achievement match at a position starts with a marker; only whitespace lies between the marker and the capture, which holds no "\n" and ends at a "\n" or the end |
| ExperienceParser.ItemsFrom | app/Services/ExperienceParser.php:68 | no achievement capture holds "\n" |
| ExperienceParser.ItemsFromSound | app/Services/ExperienceParser.php:68 | every capture is the text of a match at or after the scan position |
| ExperienceParser.ItemsFromComplete | app/Services/ExperienceParser.php:68 | every match that no earlier match overlaps is captured |
| ExperienceParser.Achievements | app/Services/ExperienceParser.php:64-72 | every achievement is trimmed and holds no "\n" |
| ExperienceParser.AchievementsSound | app/Services/ExperienceParser.php:64-72 | each achievement is the trimmed capture of a match in the text |
| ExperienceParser.AchievementsComplete | app/Services/ExperienceParser.php:64-72 | every match that no earlier match overlaps gives an achievement |
| ExperienceParser.ItemsNeedMarker | app/Services/ExperienceParser.php:68 | a text without '*', '-' or the first byte of '•' has no achievements |
| ExperienceParser.AchievementsExample | app/Services/ExperienceParser.php:68-71 | "2020 - 2021" has the single achievement "2021" |
| ExperienceParser.MakeExperience | app/Services/ExperienceParser.php:17-23 | title and company are trimmed and hold no "\n", the duration is "" or starts with four digits, the description is trimmed and single-spaced, and every achievement is trimmed and holds no "\n" |
| ExperienceParser.Parse | app/Services/ExperienceParser.php:8-28 | one record per piece that does not trim to "" or "0", in order |

## Left out

- The HTTP upload, file storage, the `Resume` model, the queued job and the status
  endpoint are I/O with no logic to prove.
- The PDF and DOCX readers (`extractTextFromPdf`, `extractTextFromDocx`) call a PDF
  library and a zip reader. Only their common `cleanText` step is modelled.
- The five HuggingFace calls of `analyzeResumeText` are a parameter, `Gateway`. Each
  call returns a value, returns null, or throws with a message. The log line written on
  failure is left out.
- ResumeController.AnalyzeResumeText: the quality score is a Dafny `real`, not a PHP
  float.
- ProjectExp.CleanProjectsList: the key is the string before `md5`. Hashing is
  injective on the keys that occur, so deduplication is the same.
- Patterns.Unique: `array_unique` keeps the original keys, so PHP may return an array
  with gaps in its indexes. The model keeps only the values, in order.
- ResumeController.CleanResumeText: its own ensures give only the shape of the result.
  Which non-whitespace bytes survive, and in what order, is stated by
  CleanResumeTextKeepsText. That a whitespace run becomes one space is stated by
  CleanResumeTextAroundRun, only for a run between stretches whose ends are kept
  non-whitespace bytes; a run next to a dropped symbol is not covered beyond the
  "a # b" example.
- PdfParser.CleanText: its own ensures give only the shape of the result. That a
  whitespace run between two stretches becomes one space is stated by CleanTextAroundRun,
  for stretches whose ends are neither whitespace nor NUL.
- PhpText.Collapse: its own ensures give only the shape of the result. That each run
  becomes one space is stated by CollapseAppend and CollapseAroundRun.
- WorkExp.DropInternLines: its own ensures say only that the text does not grow. That
  exactly the lines mentioning "intern" go is stated by DropInternLinesAppend and
  DropInternLinesOneLine.
- Patterns.VocabHits: its own ensures say only that each hit is a vocabulary word. That
  the hits are the leftmost non-overlapping matches in text order is stated by
  VocabHitsHead and VocabHitsComplete.
- ProjectExp.SplitEntries: its own ensures say only that no item is empty. What the
  items hold is stated by SplitEntriesJoin and SplitEntriesSlices.
- ProjectExp.CleanDescription: its own ensures give only the shape. Link removal is
  stated by CleanDescriptionDropsLink for a description with one profile link, and by
  EraseProfileLinksCopies for the stretches between links; no single lemma covers a
  description with several links.
- ExperienceParser.ItemsFrom: its own ensures say only that captures hold no "\n". What
  is captured is stated by ItemsFromSound and ItemsFromComplete.
- ExperienceParser.Achievements: its own ensures give only the shape of each item.
  What the items are is stated by AchievementsSound and AchievementsComplete.
- ProjectExp.FallbackExtractProjects: `floor(count * 0.3)` is computed as `(3 * count) / 10`
  on integers. The two agree on every line count.
- ProjectExp.Analyze: the two parsers that `parseProjects` calls but the class does not
  define are taken as adding nothing (see Findings).
- PHP arrays with string keys are datatypes with one field per key. Key order is the
  field order.
- Byte strings are not checked for UTF-8 validity. The patterns run without the `u`
  flag, so PCRE does not check it either.

## Findings

| source | as written | input that shows it | evidently intended | confidence | as-written member | corrected member |
|---|---|---|---|---|---|---|
| app/Services/ProjectExp.php:46-51 | `parseProjects` calls `parseHeaderBasedProjects` and `parseImplicitProjects`, which the class does not define, so `analyze` throws an Error | any text | `analyze` returns the bullet-point projects (the other two parsers adding nothing) | high, not executed | ProjectExp.AnalyzeAsWrittenAlwaysThrows | ProjectExp.Analyze |
| app/Services/ProjectExp.php:18-21 | `preg_replace` of `/^.*?(?=(EDUCATION\|…))/i` is global: after the empty match at a leading heading it retries for a non-empty match, which runs up to the next heading on the first line | "EDUCATION SKILLS" becomes "SKILLS" | only the text before the first heading is removed; a text that starts with a heading is unchanged | medium, not executed | ProjectExp.RemoveIrrelevantSectionsDropsLeadingHeading | ProjectExp.RemoveLeadingBoilerplateIdempotent |

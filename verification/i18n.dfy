/** The message catalogue of `config_i18n` and its lookup `get_text`. A
    language's table is a dictionary from message keys to texts. */
module I18n {
  import opened Dicts

  const English: Dict := [
      ("reading_keywords", "Reading BIP-39 keywords..."),
      ("starting_process", "Starting brute force process..."),
      ("stopping_process", "Stopping brute force process..."),
      ("seed_phrase", "Seed phrase"),
      ("wallet_address", "Wallet address"),
      ("balance", "Balance"),
      ("attempts", "Attempts"),
      ("speed", "Speed"),
      ("found", "Found"),
      ("attempts_per_sec", "attempts/sec"),
      ("press_enter_to_stop", "Press Enter to stop..."),
      ("wallet_found", "WALLET WITH BALANCE FOUND!"),
      ("saved_to_file", "Details saved to"),
      ("require_keywords", "Need at least 12 keywords in the file!"),
      ("stats", "Stats"),
      ("error_api_rate_limit", "API rate limit error, increasing interval..."),
      ("error_connection", "Connection error"),
      ("invalid_mnemonic", "Invalid mnemonic, retrying...")
    ]

  const Vietnamese: Dict := [
      ("reading_keywords", "Đang đọc từ khóa BIP-39..."),
      ("starting_process", "Bắt đầu quá trình tìm kiếm..."),
      ("stopping_process", "Đang dừng quá trình tìm kiếm..."),
      ("seed_phrase", "Cụm từ hạt giống"),
      ("wallet_address", "Địa chỉ ví"),
      ("balance", "Số dư"),
      ("attempts", "Số lần thử"),
      ("speed", "Tốc độ"),
      ("found", "Đã tìm thấy"),
      ("attempts_per_sec", "lần thử/giây"),
      ("press_enter_to_stop", "Nhấn Enter để dừng..."),
      ("wallet_found", "ĐÃ TÌM THẤY VÍ CÓ SỐ DƯ!"),
      ("saved_to_file", "Chi tiết đã được lưu vào"),
      ("require_keywords", "Cần ít nhất 12 từ khóa trong file!"),
      ("stats", "Thống kê"),
      ("error_api_rate_limit", "Lỗi giới hạn API, tăng khoảng thời gian..."),
      ("error_connection", "Lỗi kết nối"),
      ("invalid_mnemonic", "Cụm từ không hợp lệ, thử lại...")
    ]

  /** `TRANSLATIONS` */
  const Translations: seq<(string, Dict)> := [("en", English), ("vi", Vietnamese)]

  /** `DEFAULT_LANGUAGE` */
  const DefaultLanguage: string := "en"

  /** The table stored for a language code, if any. */
  function Find(ts: seq<(string, Dict)>, language: string): (r: Option<Dict>)
    ensures r.Some? <==> exists i :: 0 <= i < |ts| && ts[i].0 == language
    ensures r.Some? ==> (language, r.value) in ts
    decreases |ts|
  {
    if |ts| == 0 then None
    else if ts[0].0 == language then Some(ts[0].1)
    else Find(ts[1..], language)
  }

  /** `get_text` over a catalogue: an unknown language is replaced by the
      default one; a key missing from the language's table is looked up in
      the default table, and a key missing there too is its own text. */
  function Lookup(ts: seq<(string, Dict)>, key: string, language: string): (text: string)
    requires Find(ts, DefaultLanguage).Some?
    ensures Find(ts, language).Some? && key in Keys(Find(ts, language).value) ==>
      Some(text) == Get(Find(ts, language).value, key)
    ensures (Find(ts, language).None? || key !in Keys(Find(ts, language).value))
            && key in Keys(Find(ts, DefaultLanguage).value) ==>
      Some(text) == Get(Find(ts, DefaultLanguage).value, key)
    ensures (Find(ts, language).None? || key !in Keys(Find(ts, language).value))
            && key !in Keys(Find(ts, DefaultLanguage).value) ==>
      text == key
  {
    var lang := if Find(ts, language).Some? then language else DefaultLanguage;
    match Get(Find(ts, lang).value, key)
    case Some(t) => t
    case None =>
      match Get(Find(ts, DefaultLanguage).value, key)
      case Some(t) => t
      case None => key
  }

  /** An unknown language code behaves exactly like the default language. */
  lemma UnknownLanguage(ts: seq<(string, Dict)>, key: string, language: string)
    requires Find(ts, DefaultLanguage).Some? && Find(ts, language).None?
    ensures Lookup(ts, key, language) == Lookup(ts, key, DefaultLanguage)
  {
  }

  /** `get_text(key, language)`, with `'en'` when no language is given. */
  function GetText(key: string, language: string := DefaultLanguage): (text: string)
  {
    TablesFound();
    Lookup(Translations, key, language)
  }

  /** In a catalogue whose two tables share their keys, a key of the
      catalogue is answered in the language asked for, and any other key is
      its own text. */
  lemma TwoTables(ts: seq<(string, Dict)>, en: Dict, vi: Dict, key: string, language: string)
    requires TwoLanguages(ts, en, vi)
    ensures key in Keys(en) && (language == "en" || language == "vi") ==>
      Some(Lookup(ts, key, language)) == Get(if language == "en" then en else vi, key)
    ensures key !in Keys(en) ==> Lookup(ts, key, language) == key
  {
  }

  /** A catalogue of exactly two languages, `en` and `vi`, whose tables
      define the same keys. */
  ghost predicate TwoLanguages(ts: seq<(string, Dict)>, en: Dict, vi: Dict) {
    && Find(ts, "en") == Some(en) && Find(ts, "vi") == Some(vi)
    && (forall l :: l != "en" && l != "vi" ==> Find(ts, l).None?)
    && Keys(en) == Keys(vi)
  }

  lemma CatalogueShape()
    ensures TwoLanguages(Translations, English, Vietnamese)
  {
    TablesFound();
    SameKeys();
  }

  /** A key of the catalogue is answered in the language asked for. */
  lemma OwnLanguage(key: string, language: string)
    requires language == "en" || language == "vi"
    requires key in Keys(English)
    ensures Some(GetText(key, language)) == Get(if language == "en" then English else Vietnamese, key)
  {
    CatalogueShape();
    TwoTables(Translations, English, Vietnamese, key, language);
  }

  /** A key the catalogue lacks is its own text, in every language. */
  lemma MissingEverywhere(key: string, language: string)
    requires key !in Keys(English)
    ensures GetText(key, language) == key
  {
    CatalogueShape();
    TwoTables(Translations, English, Vietnamese, key, language);
  }

  /** A key that the default table lacks, and that every table lacks as the
      default one does, is its own text. */
  lemma MissingKey(ts: seq<(string, Dict)>, key: string, language: string, default: Dict)
    requires Find(ts, DefaultLanguage) == Some(default) && key !in Keys(default)
    requires Find(ts, language).Some? ==> key !in Keys(Find(ts, language).value)
    ensures Lookup(ts, key, language) == key
  {
  }

  lemma TablesFound()
    ensures Find(Translations, "en") == Some(English)
    ensures Find(Translations, "vi") == Some(Vietnamese)
    ensures forall language :: language != "en" && language != "vi" ==> Find(Translations, language).None?
  {
  }

  /** Both languages define the same eighteen keys, in the same order. */
  lemma SameKeys()
    ensures |English| == 18
    ensures Keys(English) == Keys(Vietnamese)
  {
    assert |English| == |Vietnamese| == 18;
    assert forall i :: 0 <= i < 18 ==> English[i].0 == Vietnamese[i].0;
    KeysAgree(English, Vietnamese);
  }

  lemma KeysAgree(a: Dict, b: Dict)
    requires |a| == |b| && forall i :: 0 <= i < |a| ==> a[i].0 == b[i].0
    ensures Keys(a) == Keys(b)
  {
  }

  /** Any language other than `en` and `vi` reads the English table. */
  lemma UnknownLanguageIsEnglish(key: string, language: string)
    requires language != "en" && language != "vi"
    ensures GetText(key, language) == GetText(key, "en")
  {
    TablesFound();
    UnknownLanguage(Translations, key, language);
  }
}

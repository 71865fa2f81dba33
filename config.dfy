/** The fixed configuration values the modelled code reads (class `Config` and inline literals). */
module Config {
  /** Largest cosine distance a retrieved sentence may have and still be used. */
  const RelevanceThreshold: real := 0.5

  /** Query words that never count as keywords. */
  const Stopwords: set<string> := {"nedir", "nasıl", "ne", "için", "ile", "ve", "bir", "bu", "şu", "zaman"}

  /** The "not found" answer, also used when the language model's reply has no `response` field. */
  const NotFoundAnswer: string := "Bunu bulamadım."

  /** Answer when the language-model server cannot be reached. */
  const ConnectionFailedAnswer: string :=
    "Ollama sunucusuna bağlanılamadı. " + "Lütfen 'ollama serve' komutunu çalıştırarak sunucuyu başlatın."

  /** Answer for every other failure of the language-model call. */
  const GenerationFailedAnswer: string := "Yanıt üretilirken bir hata oluştu."

  /** The line that ends link entry, compared after lowercasing. */
  const StopCommand: string := "bitti"

  /** Every accepted link starts with this. */
  const LinkPrefix: string := "http"
}

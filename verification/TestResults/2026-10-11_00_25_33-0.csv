TestResult.DisplayName,TestResult.Outcome,TestResult.Duration,TestResult.ResourceCount,RandomSeed
Decimal.ShowTwoDigits (correctness),Failed,00:00:30.2400186,14293388,0
Decimal.ShowTwoDigits (well-formedness),Passed,00:00:00.2499338,21789,0
